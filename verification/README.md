# Verified models of hard algorithms in this tree

This project models six pieces of the repository in Dafny and proves what they promise.
`dafny verify dfyconfig.toml` checks all of it.

**Maximum bipartite matching** (Google Mock). `BipartiteGraphs` and `MatchMatrices` hold the
connectivity matrix and its graph, `AugmentingSearch` what one augmenting search does and
looks at, `MaxBipartiteMatching` the search over the two mutable vectors and the single pass
over the left nodes. The main result is that one pass finds a maximum matching in every
graph. The proof keeps a set of left nodes, a dead end, that holds every left node given up
so far: all neighbours of the set are matched into the set. A failed search enlarges it, a
successful one cannot touch it, and at the end it yields a vertex cover as large as the
matching. The same cover gives the exact condition for a pairing in terms of sets of
matchers that are short of elements.

**Expectations and their prerequisites** (Google Mock). `Prerequisites` is the theory of
the prerequisite graph, with paths and transitive prerequisites. `Expectations` holds the
objects and the three recursive walks over them, `MockRuns` the state machine of creating,
ordering and calling expectations. The two short-cuts that the walks take are justified by
an invariant of every run, and prerequisites and sequences are shown to be obeyed over whole
runs. Each operation of the objects is tied to a step of that machine: creation by
`RegisterNew`, `Sequence.AddExpectation`, `AddPrerequisite`, and `Offer` for calls.
`MockHistories` tells the state by the events alone: counts, retirements and prerequisites.

**The Pump meta-language.** `PumpSyntax` has tokens and abstract trees, `PumpParser` the
recursive-descent parser, as functions and as methods that consume a token list in place,
`PumpGrammar` the grammar as concrete trees, `PumpEvaluator` the meaning of trees and the
methods that update environments and output, `PumpConversion` the two together. The parser
is complete and sound for the grammar, which is unambiguous, and the trees that are rebuilt
from their tokens are characterized exactly. `PumpLaws` says what each construct generates,
from its tokens to its text.

**Prime tables.** `PrimeNumbers` is the arithmetic, `PrimeTables` has trial division, the
sieve, and the hybrid, all on 32-bit integers with their exact overflow conditions. The
primes at which overflows begin are too large for trial division here; `PrimeCertificates`
shows them prime by the order of a residue.

**String piece searches** are in `StringPieces`, **unique file names** in `FilePaths` and
`Decimals`. `Collections` has facts about finite sets and sequences.

## Conventions and findings

- kUnused is written -1; a left or right index is never negative. A matrix cell is a bool.
- Iteration over a set of expectations takes the elements in any order, as the order of
  addresses is arbitrary.
- Some loop bodies and inner loops are methods of their own: those of the three walks, one
  iteration of $for, one step of the sieve, skipping a run of separators, and collecting the
  matched pairs.
- `all`, the list of all expectations in order of creation, and the numbers in it are ghost:
  they exist for the specifications. Clauses may be added to an expectation as long as
  nobody depends on it and it was never called, which is what the documentation asks for
  (expectations are set before the mocks are called). `StatementsAreRuns` shows that clauses
  which always concern the expectation just created, as those of EXPECT_CALL do, meet this;
  `OutOfOrderMakesCycle` shows a cycle otherwise, and `AddEdgeAcyclicIff` says exactly when
  one arises.
- The parser drops blank code tokens after an $if that has no else part. The grammar here
  has such tokens as part of the $if (`Spaced`), and a tree is only followed by what
  cannot be taken for them (`EndsIf`). `RebuiltIffSettled` says that these are exactly the
  trees that survive, `BlankAfterIfIsLost` shows some that do not. The parser also stops at
  the first token that no piece of code starts with, and the program ignores the rest of
  the source.
- A failing Pump program ends the process. Nothing is claimed of its output.
- The comment on PrimeTable::GetNextPrime (prime_tables.h:50-51) promises the smallest
  prime above p. For negative p the on-the-fly table returns -1 instead, while a table
  computed in advance finds 2 for p == -1 and reads outside its array below that
  (`OutOfBounds`). CalculatePrimesUpTo writes is_prime_[1], so it needs max >= 1.
- Sums and squares that exceed a 32-bit int end a computation with `Overflow`, as nothing is
  defined about what follows. Trial division overflows exactly for the primes from
  46340*46340 on, among them INT_MAX (`LargestOverflows`); the search for a next prime
  exactly from 2147395589 on (`SearchOverflowsIff`); the sieve exactly if there is a prime
  above INT_MAX/2 in the table, that is, from max = 1073741827 on (`UnsafeStepIff`).
- find_first_not_of with an empty set returns 0 whatever pos is (string_piece.cc:181-184).
  Its contract says exactly when that is the position asked for.
- A byte string is shorter than 2^63 bytes, as any object is. std::search, std::find and
  std::find_end are loops.
- FilePath is modelled for both kinds of platform, with '/' alone and with a backslash as
  primary separator. Strings hold no NUL. The existing paths are a finite set of strings.
  The names stay distinct for every extension, also one that contains separators.

## Model

| member | source | states |
|---|---|---|
| `MaxBipartiteMatching.MaxBipartiteMatchState.TryAugment` | ext/gtest/googletest/googlemock/src/gmock-matchers.cc:259-285 | terminates; the right nodes newly seen lie on alternating paths from ilhs, and no left node is explored twice; on failure leaves both vectors alone and has seen everything reachable; on success matches ilhs and exactly one new right node, unmatches nobody, touches nothing attached to a right node seen before, and leaves all links mutual except at the old partner of ilhs; never succeeds from a dead-end set of left nodes and never disturbs one |
| `AugmentingSearch.AugmentThroughMate` | ext/gtest/googletest/googlemock/src/gmock-matchers.cc:277-281 | completing the path after a successful inner search repairs the one right node that still pointed to the moved left node |
| `AugmentingSearch.FailedSearchIsDeficient` | ext/gtest/googletest/googlemock/src/gmock-matchers.cc:259-285 | a failed search from an unmatched left node with a fresh seen vector: the left nodes explored have exactly the seen right nodes as neighbours and are one more in number, and they form a dead end |
| `AugmentingSearch.FailedSearchSeesReachable` | ext/gtest/googletest/googlemock/src/gmock-matchers.cc:246-248 | a failed search with a fresh seen vector has seen exactly the right nodes that lie on alternating paths from its start |
| `AugmentingSearch.ExploresMate` | ext/gtest/googletest/googlemock/src/gmock-matchers.cc:250-252 | going on through the mate of a right node not seen before explores only left nodes not explored before: none is explored twice |
| `MaxBipartiteMatching.FailureKeepsOnePass` | ext/gtest/googletest/googlemock/src/gmock-matchers.cc:210-221 | a failed search enlarges the dead end by all left nodes it explored |
| `MaxBipartiteMatching.DeadEndCertifiesMaximum` | ext/gtest/googletest/googlemock/src/gmock-matchers.cc:210-221 | if all unmatched left nodes lie in a dead end, the matching is maximum, and some vertex cover has the same size |
| `MaxBipartiteMatching.MaxBipartiteMatchState.Compute` | ext/gtest/googletest/googlemock/src/gmock-matchers.cc:207-238 | for every graph one pass yields a maximum matching in ascending order of elements, with a vertex cover of the same size; the run-time check of line 225 holds in every iteration; left and right end mutually referent |
| `MaxBipartiteMatching.OnePassCompletes` | ext/gtest/googletest/googlemock/src/gmock-matchers.cc:230-237 | when all left nodes have been tried, the pairs collected in ascending order are a maximum matching with a cover of the same size |
| `MaxBipartiteMatching.MaxBipartiteMatchState.constructor` | ext/gtest/googletest/googlemock/src/gmock-matchers.cc:200-204 | all nodes start unmatched |
| `MaxBipartiteMatching.FindMaxBipartiteMatching` | ext/gtest/googletest/googlemock/src/gmock-matchers.cc:307-310 | the pairs returned are distinct edges forming a maximum matching, certified by a cover of the same size |
| `MaxBipartiteMatching.FindPairing` | ext/gtest/googletest/googlemock/src/gmock-matchers.cc:328-357 | true exactly when every matcher can be given its own matching element, and exactly when no set of matchers has fewer matching elements than members |
| `MaxBipartiteMatching.FullMatchingIsPairing` | ext/gtest/googletest/googlemock/src/gmock-matchers.cc:332-336 | a matching with as many pairs as matchers is an injective choice of elements |
| `MaxBipartiteMatching.SquarePairingIsPermutation` | ext/gtest/googletest/googlemock/src/gmock-matchers.cc:336-341 | in a square matrix a pairing uses every element |
| `BipartiteGraphs.MatchingWithinCover` | ext/gtest/googletest/googlemock/src/gmock-matchers.cc:138-141 | no matching is larger than a vertex cover, in any graph |
| `BipartiteGraphs.PairingImpliesHall` | ext/gtest/googletest/googlemock/src/gmock-matchers.cc:328-357 | a pairing gives every set of matchers at least as many elements |
| `BipartiteGraphs.SmallCoverBreaksHall` | ext/gtest/googletest/googlemock/src/gmock-matchers.cc:336-346 | a cover smaller than the number of matchers exposes a set of matchers short of elements |
| `MatchMatrices.MatchMatrix.SpaceIndex` | ext/gtest/googletest/googlemock/include/gmock/gmock-matchers.h:3284-3286 | the flattened offset of a cell stays inside the vector |
| `MatchMatrices.MatchMatrix.constructor` | ext/gtest/googletest/googlemock/include/gmock/gmock-matchers.h:3259-3263 | a new matrix stands for the graph without edges |
| `MatchMatrices.MatchMatrix.SetEdge` | ext/gtest/googletest/googlemock/include/gmock/gmock-matchers.h:3270-3272 | adds or removes exactly the one edge |
| `MatchMatrices.MatchMatrix.CellIsEdge` | ext/gtest/googletest/googlemock/include/gmock/gmock-matchers.h:3284-3294 | every cell is set exactly if the edge from its row to its column is there |
| `MatchMatrices.MatchMatrix.View` | ext/gtest/googletest/googlemock/include/gmock/gmock-matchers.h:3267-3269 | the graph of a matrix: its edges are exactly the set cells |
| `MatchMatrices.MatchMatrix.NextGraph` | ext/gtest/googletest/googlemock/src/gmock-matchers.cc:359-371 | adds one to the cells read as a binary number modulo 2^(rows*columns), and returns false exactly when that leaves zero |
| `MatchMatrices.IncrementAddsOne` | ext/gtest/googletest/googlemock/include/gmock/gmock-matchers.h:3274-3277 | clearing the leading set cells and setting the next one adds one modulo 2^n |
| `MatchMatrices.EnumerationIsExhaustive` | ext/gtest/googletest/googlemock/src/gmock-matchers.cc:359-371 | repeated calls from the zero matrix visit every matrix exactly once, and true is returned until the last |
| `Expectations.ExpectationBase.RetireAllPreRequisites` | ext/gtest/googletest/googlemock/src/gmock-spec-builders.cc:95-111 | terminates on acyclic prerequisites; additionally retires exactly the transitive prerequisites; own flag unchanged; retired expectations stay closed downwards |
| `Expectations.ExpectationBase.RetireAsPreRequisite` | ext/gtest/googletest/googlemock/src/gmock-spec-builders.cc:105-109 | the loop body: one prerequisite and all below it end up retired, the downward closure kept |
| `Expectations.ExpectationBase.AllPrerequisitesAreSatisfied` | ext/gtest/googletest/googlemock/src/gmock-spec-builders.cc:115-125 | true exactly when all transitive prerequisites are satisfied |
| `Expectations.ExpectationBase.IsSatisfiedAsPreRequisite` | ext/gtest/googletest/googlemock/src/gmock-spec-builders.cc:120-122 | the test of one prerequisite covers itself and everything below it |
| `Expectations.ExpectationBase.FindUnsatisfiedPrerequisites` | ext/gtest/googletest/googlemock/src/gmock-spec-builders.cc:128-146 | adds to the result exactly the unsatisfied expectations reached through satisfied, uncalled ones |
| `Expectations.ExpectationBase.ReportAsPreRequisite` | ext/gtest/googletest/googlemock/src/gmock-spec-builders.cc:133-144 | the loop body: reports one prerequisite or what blocks it |
| `Expectations.ExpectationBase.AddPrerequisite` | ext/gtest/googletest/googlemock/include/gmock/gmock-spec-builders.h:971-973 | takes the abstract state to the one with exactly one more prerequisite edge |
| `Expectations.ExpectationBase.ShouldHandleArguments` | ext/gtest/googletest/googlemock/include/gmock/gmock-spec-builders.h:1092-1102 | true exactly when the expectation is active, unblocked and the arguments match |
| `Expectations.ExpectationBase.IncrementCallCount` | ext/gtest/googletest/googlemock/include/gmock/gmock-spec-builders.h:822-826 | counts one call of this expectation and of no other |
| `Expectations.ExpectationBase.GetActionForArguments` | ext/gtest/googletest/googlemock/include/gmock/gmock-spec-builders.h:1188-1218 | counts the call; unless it was excessive, retires exactly the transitive prerequisites, and itself if it retires on saturation and is now saturated |
| `Expectations.ExpectationBase.RetireAfterCall` | ext/gtest/googletest/googlemock/include/gmock/gmock-spec-builders.h:1209-1213 | the retirements that follow a call that is not excessive |
| `Expectations.ExpectationBase.Offer` | ext/gtest/googletest/googlemock/include/gmock/gmock-spec-builders.h:1092-1218 | a call offered to an expectation takes the whole abstract state to the state of a handled call, or changes nothing |
| `Expectations.RegisterNew` | ext/gtest/googletest/googlemock/src/gmock-spec-builders.cc:68-82 | a newly created expectation extends the abstract state by one entry without prerequisites, calls or retirement |
| `Expectations.Sequence.AddExpectation` | ext/gtest/googletest/googlemock/src/gmock-spec-builders.cc:794-802 | takes expectations and sequences to the world after the abstract step: the new member depends on the last one unless there is none or it is the same, and the last expectation remembered stays the last member |
| `Prerequisites.AddEdgeAcyclicIff` | ext/gtest/googletest/googlemock/src/gmock-spec-builders.cc:794-802 | a new prerequisite keeps the graph acyclic exactly when it is not the expectation itself and does not depend on it |
| `Prerequisites.BelowShrinks` | ext/gtest/googletest/googlemock/src/gmock-spec-builders.cc:103-110 | a prerequisite has strictly fewer transitive prerequisites, so all three walks terminate |
| `Prerequisites.PathMeetsBlocker` | ext/gtest/googletest/googlemock/src/gmock-spec-builders.cc:139-144 | every path to an unsatisfied prerequisite meets one of the first unsatisfied ones |
| `Prerequisites.NoBlockersIffAllSatisfied` | ext/gtest/googletest/googlemock/src/gmock-spec-builders.cc:127-146 | the first unsatisfied prerequisites are unsatisfied transitive prerequisites, and there are none exactly when all are satisfied |
| `Prerequisites.PruningIsExact` | ext/gtest/googletest/googlemock/src/gmock-spec-builders.cc:133-138 | not looking behind satisfied expectations that were called loses nothing if everything below those is satisfied |
| `MockRuns.StepKeepsInv` | ext/gtest/googletest/googlemock/include/gmock/gmock-spec-builders.h:1188-1218 | creating, ordering and calling expectations each keep the graph acyclic, retirement closed downwards, called expectations settled and sequences ordered |
| `MockRuns.HandlingKeeps` | ext/gtest/googletest/googlemock/include/gmock/gmock-spec-builders.h:1208-1213 | handling a call keeps the consistency of all expectations |
| `MockRuns.PrerequisiteKeeps` | ext/gtest/googletest/googlemock/src/gmock-spec-builders.cc:794-802 | a prerequisite added to an expectation nobody depends on and never called adds exactly itself and what is below it |
| `MockRuns.RunsKeepInv` | ext/gtest/googletest/googlemock/src/gmock-spec-builders.cc:97-138 | every state of every run satisfies the invariant |
| `MockRuns.ShortcutsAreSound` | ext/gtest/googletest/googlemock/src/gmock-spec-builders.cc:98-138 | in every reachable state the graph is acyclic, the early return is justified, and the pruned report is the exact one, empty precisely when nothing is unsatisfied |
| `MockRuns.SequencesAreObeyed` | ext/gtest/googletest/googlemock/src/gmock-spec-builders.cc:794-802 | over whole runs a member of a sequence handles a call only when all earlier members are satisfied, and thereafter no earlier member handles a call (unless the later one allows none) |
| `MockRuns.PrerequisitesAreObeyed` | ext/gtest/googletest/googlemock/include/gmock/gmock-spec-builders.h:964-976 | over whole runs an expectation handles a call only when all its transitive prerequisites, given by After or by sequences, are satisfied, and thereafter none of them handles a call (unless it allows none itself) |
| `MockRuns.StatementsAreRuns` | ext/gtest/googletest/googlemock/include/gmock/gmock-spec-builders.h:936-945 | statements, each adding clauses only to the expectation just created, make a run: no clause is ever added to an expectation that others depend on |
| `MockRuns.OutOfOrderMakesCycle` | ext/gtest/googletest/googlemock/src/gmock-spec-builders.cc:794-802 | a concrete sequence of additions against the order of creation that closes a cycle |
| `MockHistories.BoundsAreForced` | ext/gtest/googletest/googlemock/src/gmock-cardinalities.cc:52-83 | satisfied means at least min and at most the largest of 0, min and max; saturated means at least min and max |
| `MockHistories.CallsAreCounted` | ext/gtest/googletest/googlemock/include/gmock/gmock-spec-builders.h:822-826 | in every run the count of an expectation is the number of its call events |
| `MockHistories.PrerequisitesWereCalled` | ext/gtest/googletest/googlemock/src/gmock-spec-builders.cc:115-125 | over whole runs a call is handled only after each transitive prerequisite was called at least its minimum and at most its maximum of times, and no such prerequisite is called again afterwards (unless the caller allows no calls) |
| `MockHistories.SaturationLimitsCalls` | ext/gtest/googletest/googlemock/include/gmock/gmock-spec-builders.h:1211-1213 | an expectation that retires on saturation is never called more often than allowed, and is retired once that often |
| `MockHistories.RetiredExactly` | ext/gtest/googletest/googlemock/include/gmock/gmock-spec-builders.h:1194-1213 | in every run an expectation is retired exactly if some earlier call, not excessive, was to one that depends on it, or was its own last allowed call and it retires on saturation |
| `MockHistories.HandledExactly` | ext/gtest/googletest/googlemock/include/gmock/gmock-spec-builders.h:1092-1102 | in every run a call may be handled exactly if the expectation was not retired by an earlier call and every transitive prerequisite was called as often as it should be |
| `MockHistories.CreatedExactly` | ext/gtest/googletest/googlemock/src/gmock-spec-builders.cc:68-82 | the expectations are those created, in that order |
| `MockHistories.SequencesExactly` | ext/gtest/googletest/googlemock/src/gmock-spec-builders.cc:794-802 | a sequence holds what was added to it, in that order |
| `MockHistories.PrerequisitesExactly` | ext/gtest/googletest/googlemock/src/gmock-spec-builders.cc:794-802 | the immediate prerequisites of an expectation are exactly those of its After clauses and the last members of the sequences when it was added to them |
| `PumpParser.TokenList.PopToken` | ext/gtest/googletest/googletest/scripts/pump.py:453-460 | removes the front token if it has the wanted type, and ends the program otherwise |
| `PumpParser.TokenList.PushFront` | ext/gtest/googletest/googletest/scripts/pump.py:449-450 | puts a token back in front |
| `PumpParser.TokenList.ParseElseNode` | ext/gtest/googletest/googletest/scripts/pump.py:475-500 | agrees with the else grammar function on result, remaining tokens and failure |
| `PumpParser.TokenList.ParseAtomicCodeNode` | ext/gtest/googletest/googletest/scripts/pump.py:503-561 | agrees with the atomic grammar function; consumes a token or restores the list |
| `PumpParser.TokenList.ParseCodeNode` | ext/gtest/googletest/googletest/scripts/pump.py:564-574 | the loop agrees with the recursive code function on result, remaining tokens and failure |
| `PumpParser.ParseAtomic` | ext/gtest/googletest/googletest/scripts/pump.py:503-561 | an atomic step that returns a node consumes a token, and one that returns none consumes nothing |
| `PumpGrammar.CodeComplete` | ext/gtest/googletest/googletest/scripts/pump.py:46-62 | on the tokens of any tree, followed by something code cannot go on with, the parser consumes exactly those tokens and rebuilds the tree |
| `PumpGrammar.ElseComplete` | ext/gtest/googletest/googletest/scripts/pump.py:475-500 | the same for else parts, with blank tokens before them |
| `PumpGrammar.AtomComplete` | ext/gtest/googletest/googletest/scripts/pump.py:503-561 | the same for atomic code |
| `PumpGrammar.RebuiltIffSettled` | ext/gtest/googletest/googletest/scripts/pump.py:475-500 | a tree is rebuilt from its tokens exactly when each $if without an else part in it is followed neither by an else part nor by blank text |
| `PumpGrammar.TextAfterIfIsKept` | ext/gtest/googletest/googletest/scripts/pump.py:496-500 | text after an $if without an else part is the next atom if it holds a character other than space, tab, newline, carriage return, vertical tab and form feed |
| `PumpGrammar.BlankAfterIfIsLost` | ext/gtest/googletest/googletest/scripts/pump.py:496-498 | text of those six characters only is dropped there, so that such trees are not rebuilt |
| `PumpGrammar.CodeSound` | ext/gtest/googletest/googletest/scripts/pump.py:564-574 | whatever the parser accepts is the rendering of some tree of the grammar with that result |
| `PumpGrammar.ElseSound` | ext/gtest/googletest/googletest/scripts/pump.py:475-500 | the same for else parts |
| `PumpGrammar.AtomSound` | ext/gtest/googletest/googletest/scripts/pump.py:503-561 | the same for atomic code |
| `PumpGrammar.ParserMeetsGrammar` | ext/gtest/googletest/googletest/scripts/pump.py:475-574 | the parser returns given atoms and remaining tokens if and only if some tree of the grammar derives them |
| `PumpGrammar.GrammarUnambiguous` | ext/gtest/googletest/googletest/scripts/pump.py:46-62 | two derivations from the same tokens have the same abstract tree and the same end |
| `PumpGrammar.ElifIsNestedIf` | ext/gtest/googletest/googletest/scripts/pump.py:482-495 | $elif and the nested $else/$if spelling parse to the same tree |
| `PumpEvaluator.StoredShowsSame` | ext/gtest/googletest/googletest/scripts/pump.py:595-603 | keeping text as an integer never changes how it is shown, and text that stays text is no integer numeral |
| `PumpEvaluator.Env.Clone` | ext/gtest/googletest/googletest/scripts/pump.py:589-593 | a fresh environment with the same contents |
| `PumpEvaluator.Env.PushVariable` | ext/gtest/googletest/googletest/scripts/pump.py:595-603 | puts exactly one binding in front |
| `PumpEvaluator.Env.PushRange` | ext/gtest/googletest/googletest/scripts/pump.py:608-609 | puts exactly one range in front |
| `PumpEvaluator.Env.GetRange` | ext/gtest/googletest/googletest/scripts/pump.py:632-638 | finds the latest range of a name, or reports that there is none |
| `PumpEvaluator.Env.GetValue` | ext/gtest/googletest/googletest/scripts/pump.py:614-620 | finds the latest value of a name, or reports that there is none |
| `PumpEvaluator.AtomAlike` | ext/gtest/googletest/googletest/scripts/pump.py:614-620 | environments that answer every lookup alike give the same text and environments that still do, for every node |
| `PumpEvaluator.CodeAlike` | ext/gtest/googletest/googletest/scripts/pump.py:702-704 | the same for code in sequence |
| `PumpEvaluator.ShadowedBindingIsErased` | ext/gtest/googletest/googletest/scripts/pump.py:603-620 | a binding hidden by a later one of the same name has no effect on any code that follows |
| `PumpEvaluator.RunAtomicCode` | ext/gtest/googletest/googletest/scripts/pump.py:656-699 | only appends to the output; the text and the new environment are those of the meaning, a function of tree and environment alone |
| `PumpEvaluator.RunIterations` | ext/gtest/googletest/googletest/scripts/pump.py:674-680 | the $for loop appends the meaning of its iterations and leaves the environment alone |
| `PumpEvaluator.RunCode` | ext/gtest/googletest/googletest/scripts/pump.py:702-704 | runs all atoms in the environment passed in, with their combined meaning |
| `PumpEvaluator.SequenceRuns` | ext/gtest/googletest/googletest/scripts/pump.py:702-704 | the meaning is compositional over concatenated code |
| `PumpEvaluator.CodeExtends` | ext/gtest/googletest/googletest/scripts/pump.py:656-704 | running code adds one front binding per top-level $var and $range, in order, and none from nested code |
| `PumpEvaluator.BlockWithoutBindingsIsInline` | ext/gtest/googletest/googletest/docs/PumpManual.md:176-177 | brackets around code that binds nothing, in particular empty brackets, can be inserted or removed anywhere without effect |
| `PumpEvaluator.IterationTexts` | ext/gtest/googletest/googletest/scripts/pump.py:674-678 | the iterations of a $for run its body once for each value from lower to upper |
| `PumpEvaluator.ForJoins` | ext/gtest/googletest/googletest/scripts/pump.py:674-680 | the output of a $for is its iteration texts joined by the separator, strictly between them; it stops exactly when an iteration does |
| `PumpEvaluator.ForNodeJoins` | ext/gtest/googletest/googletest/scripts/pump.py:668-680 | the same for a whole $for node, including the lookup of its range |
| `PumpLaws.StripExact` | ext/gtest/googletest/googletest/scripts/pump.py:658 | stripping takes away exactly the white space at both ends |
| `PumpLaws.BlankIffNothingLeft` | ext/gtest/googletest/googletest/scripts/pump.py:496 | a token is blank exactly if stripping leaves nothing, and exactly if it is made of the six white space characters |
| `PumpLaws.LatestVariable` | ext/gtest/googletest/googletest/scripts/pump.py:614-620 | a lookup finds the binding nearest to the front, and none only if there is none |
| `PumpLaws.LatestRange` | ext/gtest/googletest/googletest/scripts/pump.py:632-638 | the same for ranges |
| `PumpLaws.IntegerShows` | ext/gtest/googletest/googletest/scripts/pump.py:689-691 | an integer is shown as its numeral, with a minus sign in front if negative |
| `PumpLaws.IfRuns` | ext/gtest/googletest/googletest/scripts/pump.py:683-688 | $if runs the first branch if the condition is true, the second one, if any, if it is false, and leaves the environment alone; it stops if the condition cannot be evaluated |
| `PumpLaws.TextRuns` | ext/gtest/googletest/googletest/scripts/pump.py:681-693 | raw text is copied, $($) is a dollar sign, an expression shows its value |
| `PumpLaws.VarBinds` | ext/gtest/googletest/googletest/scripts/pump.py:657-662 | after $var a lookup of the name gives a value shown as the text of the definition, and any other lookup what it gave before |
| `PumpLaws.RangeBinds` | ext/gtest/googletest/googletest/scripts/pump.py:663-667 | after $range the name stands for the bounds in the order written, other names for what they did |
| `PumpLaws.RangeThenFor` | ext/gtest/googletest/googletest/scripts/pump.py:663-680 | $range followed by $for yields the texts of the body for each value from the first bound to the second, joined by the separator |
| `PumpLaws.ForNeedsRange` | ext/gtest/googletest/googletest/scripts/pump.py:632-638 | $for over a name without a range stops the program |
| `PumpLaws.JoinSplits` | ext/gtest/googletest/googletest/scripts/pump.py:674-680 | joining two lists of texts puts one separator between the joined parts |
| `PumpLaws.GeneratedFromIfElse` | ext/gtest/googletest/googletest/scripts/pump.py:475-545 | the tokens of $if E [[A]] $else [[B]] generate what those of A or B alone would, as E is true or false |
| `PumpLaws.GeneratedFromElif` | ext/gtest/googletest/googletest/scripts/pump.py:482-495 | with $elif, what the first branch whose condition is true would generate, and otherwise the $else branch |
| `PumpLaws.GeneratedFromIf` | ext/gtest/googletest/googletest/scripts/pump.py:532-538 | without $else, nothing if the condition is false |
| `PumpLaws.GeneratedFromOneToken` | ext/gtest/googletest/googletest/scripts/pump.py:548-554 | a text, a dollar sign, $NAME and $(EXP) generate themselves, a dollar sign, and the values of NAME and EXP |
| `PumpLaws.GeneratedFromVar` | ext/gtest/googletest/googletest/scripts/pump.py:509-520 | $var ID = [[A]] B generates what B does where ID stands for the text of A |
| `PumpLaws.GeneratedFromVarExp` | ext/gtest/googletest/googletest/scripts/pump.py:513-515 | $var ID = EXP B generates what B does where ID stands for the value of EXP |
| `PumpLaws.GeneratedFromBlock` | ext/gtest/googletest/googletest/scripts/pump.py:555-558 | [[A]] B generates the text of A followed by that of B, for which A has no other effect |
| `PumpLaws.GeneratedFromRangeFor` | ext/gtest/googletest/googletest/scripts/pump.py:521-547 | the tokens of $range ID LOW..HIGH $for ID SEP [[A]] generate the texts of A for LOW to HIGH with SEP between them |
| `PumpConversion.ConvertFromTokens` | ext/gtest/googletest/googletest/scripts/pump.py:825-827 | parsing the tokens and running the tree, both in place, yields the generated text |
| `PumpConversion.GeneratedIsMeaning` | ext/gtest/googletest/googletest/scripts/pump.py:825-827 | the text generated from the tokens of a tree is the meaning of that tree |
| `PumpConversion.RestOfSourceIgnored` | ext/gtest/googletest/googletest/scripts/pump.py:577-581 | what follows the first token that code cannot go on with is dropped without an error |
| `PrimeTables.OnTheFlyPrimeTable.IsPrime` | ext/gtest/googletest/googletest/samples/prime_tables.h:58-67 | on 32-bit integers: true exactly for the primes, except that the square i*i overflows exactly for the primes from 46340*46340 on |
| `PrimeTables.OnTheFlyPrimeTable.GetNextPrime` | ext/gtest/googletest/googletest/samples/prime_tables.h:69-75 | on 32-bit integers: terminates; -1 for negative p, otherwise the smallest prime above p, or an overflow exactly when that prime is 46340*46340 or more |
| `PrimeTables.SearchOverflowsIff` | ext/gtest/googletest/googletest/samples/prime_tables.h:69-75 | the search for a next prime overflows exactly from p = 2147395589 on |
| `PrimeTables.LargestOverflows` | ext/gtest/googletest/googletest/samples/prime_tables.h:61 | the trial of INT_MAX, a prime, overflows |
| `PrimeTables.PreCalculatedPrimeTable.constructor` | ext/gtest/googletest/googletest/samples/prime_tables.h:83-86 | builds a correct table for every max that does not overflow, 1 to 1073741826 |
| `PrimeTables.PreCalculatedPrimeTable.CalculatePrimesUpTo` | ext/gtest/googletest/googletest/samples/prime_tables.h:102-114 | the sieve marks exactly the primes although composite steps are skipped, with indices in bounds; a 32-bit sum overflows exactly if the table has a prime above INT_MAX/2 |
| `PrimeTables.PreCalculatedPrimeTable.CrossOut` | ext/gtest/googletest/googletest/samples/prime_tables.h:109-112 | one step crosses out exactly the proper multiples of i in the table |
| `PrimeTables.UnsafeStepIff` | ext/gtest/googletest/googletest/samples/prime_tables.h:110 | there is a prime above INT_MAX/2 in the table exactly from max = 1073741827 on |
| `PrimeTables.SurvivorIsPrime` | ext/gtest/googletest/googletest/samples/prime_tables.h:106-107 | when the sieve reaches i, i is still marked exactly if it is prime |
| `PrimeTables.PreCalculatedPrimeTable.IsPrime` | ext/gtest/googletest/googletest/samples/prime_tables.h:89-91 | true exactly for the primes inside the table |
| `PrimeTables.PreCalculatedPrimeTable.GetNextPrime` | ext/gtest/googletest/googletest/samples/prime_tables.h:93-99 | the smallest prime above p if it lies in the table, otherwise -1; reads before the array exactly for p below -1, and p + 1 overflows exactly for INT_MAX |
| `PrimeTables.HybridPrimeTable.constructor` | ext/gtest/googletest/googletest/samples/sample8_unittest.cc:52-56 | a table in advance unless forced on the fly |
| `PrimeTables.HybridPrimeTable.IsPrime` | ext/gtest/googletest/googletest/samples/sample8_unittest.cc:62-67 | agrees with trial division on every 32-bit integer, for either kind of table |
| `PrimeTables.HybridPrimeTable.GetNextPrime` | ext/gtest/googletest/googletest/samples/sample8_unittest.cc:69-75 | agrees with the search on the fly for every p >= 0, also beyond the table; with a table, p == -1 gives 2, or -1 if the table holds no prime, and smaller p read before the array |
| `PrimeNumbers.NextPrime` | ext/gtest/googletest/googletest/samples/prime_tables.h:50-52 | above every number there is a smallest prime, and only one |
| `PrimeNumbers.TrialDivisionExact` | ext/gtest/googletest/googletest/samples/prime_tables.h:61-66 | without divisors up to the square root a number is prime |
| `PrimeNumbers.LargerPrime` | ext/gtest/googletest/googletest/samples/prime_tables.h:69-72 | above every number there is a prime, so the search on the fly ends |
| `PrimeNumbers.PrimeIffNoSmallerPrimeFactor` | ext/gtest/googletest/googletest/samples/prime_tables.h:106-112 | prime means having no smaller prime factor |
| `PrimeCertificates.NextPrimeAboveHalf` | ext/gtest/googletest/googletest/samples/prime_tables.h:110 | the smallest prime above INT_MAX/2, the first step whose double overflows, is 1073741827 |
| `PrimeCertificates.LastPrimeBelowSquare` | ext/gtest/googletest/googletest/samples/prime_tables.h:61 | 2147395589 is the largest prime below 46340*46340, the largest square of a 32-bit integer |
| `StringPieces.BuildLookupTable` | base/string_piece.cc:134-142 | the table says of every byte whether it is wanted |
| `StringPieces.StringPiece.Find` | base/string_piece.cc:62-73 | the least match position from pos on, or npos exactly when there is none |
| `StringPieces.StringPiece.FindByte` | base/string_piece.cc:75-84 | the least position of the byte from pos on, or npos exactly when there is none |
| `StringPieces.StringPiece.Rfind` | base/string_piece.cc:86-101 | the greatest match position up to pos, or npos exactly when there is none |
| `StringPieces.StringPiece.RfindByte` | base/string_piece.cc:103-124 | the greatest position of the byte up to pos, without stepping below 0 |
| `StringPieces.StringPiece.FindFirstOf` | base/string_piece.cc:144-167 | the least position from pos on holding a byte of the set |
| `StringPieces.StringPiece.FindFirstNotOf` | base/string_piece.cc:174-202 | the least position from pos on holding no byte of the set, exactly unless the set is empty, the piece is not and pos is not 0 |
| `StringPieces.StringPiece.FindFirstNotOfByte` | base/string_piece.cc:204-220 | the least position from pos on holding another byte |
| `StringPieces.StringPiece.FindLastOf` | base/string_piece.cc:222-250 | the greatest position up to pos holding a byte of the set |
| `StringPieces.StringPiece.FindLastNotOf` | base/string_piece.cc:257-291 | the greatest position up to pos holding no byte of the set |
| `StringPieces.StringPiece.FindLastNotOfByte` | base/string_piece.cc:293-314 | the greatest position up to pos holding another byte |
| `StringPieces.StartsWithIffFound` | base/string_piece.h:133-137 | a piece starts with x exactly when find, and exactly when rfind, from position 0 gives 0 |
| `StringPieces.EndsWithIffFound` | base/string_piece.h:139-143 | a piece ends with x exactly when rfind gives the difference of the lengths |
| `FilePaths.Normalize` | ext/gtest/googletest/googletest/src/gtest-filepath.cc:356-384 | the in-place copy turns each run of separators into one primary separator |
| `FilePaths.NormalizedFixpoint` | ext/gtest/googletest/googletest/src/gtest-filepath.cc:352-355 | normalization leaves exactly the normal names alone and is idempotent |
| `FilePaths.RunBecomesOne` | ext/gtest/googletest/googletest/src/gtest-filepath.cc:366-380 | each run of separators, however long, becomes a single primary separator and what surrounds it is normalized apart |
| `FilePaths.SeparatorsAre` | ext/gtest/googletest/googletest/src/gtest-filepath.cc:70-95 | slash alone separates on one kind of platform and backslash is text; on the other both separate and become a backslash |
| `FilePaths.PlainFileName` | ext/gtest/googletest/googletest/src/gtest-filepath.cc:188-193 | without a directory the name is base.extension for number 0 and base_digits.extension otherwise |
| `FilePaths.FileNameInDirectory` | ext/gtest/googletest/googletest/src/gtest-filepath.cc:199-205 | in a directory, with or without a separator at its end, the same name follows after exactly one separator |
| `FilePaths.FileNameShape` | ext/gtest/googletest/googletest/src/gtest-filepath.cc:183-205 | after all normalization the numbered names differ in the infix alone |
| `FilePaths.MakeFileNameInjective` | ext/gtest/googletest/googletest/src/gtest-filepath.cc:183-195 | different numbers give different names, whatever directory, base name and extension |
| `FilePaths.TakenNamesBound` | ext/gtest/googletest/googletest/src/gtest-filepath.cc:286-295 | no more numbers can be taken than there are existing paths |
| `FilePaths.GenerateUniqueFileName` | ext/gtest/googletest/googletest/src/gtest-filepath.cc:286-295 | stops after at most one more try than there are existing paths, with the name of the least free number; for arguments without redundant separators that is directory/base.extension exactly if no such path exists |
| `Decimals.CanonicalIntExact` | ext/gtest/googletest/googletest/scripts/pump.py:597-600 | text counts as an integer exactly when it is the numeral of that integer |
| `Decimals.PositionalValue` | ext/gtest/googletest/googletest/src/gtest-filepath.cc:191-192 | the value of a numeral is the sum of its digits, each worth ten times as much for every digit after it |
| `Decimals.DecimalInjective` | ext/gtest/googletest/googletest/src/gtest-filepath.cc:191-192 | different numbers have different decimal numerals |

## Left out

- Text output of FindPairing, DescribeToImpl and MatchMatrix::Randomize: no claim to prove.
- Argument matching, actions, locking, failure reports and the registry of mock objects: a
  matching call is an input of the model.
- Cardinalities other than those made by Between, AtLeast, AtMost, AnyNumber and Exactly.
- Cardinality clauses are fixed when the expectation is created rather than clause by clause.
- Ownership of expectations by linked_ptr.
- Call counts and file numbers as 32-bit integers; stack depth of the recursions.
- Tokenizing Pump source, the rewriting of expressions and Python's eval: evaluation of an
  expression is a function of its token and the variables, which `AtomAlike` takes to read
  variables by lookup only.
- PopVariable, PopRange and GetLastLine, which nothing calls, and positions of tokens, which
  only error messages use.
- StripMetaComments and the wrapping of long lines after generation.
- StringPiece copying, comparison and substr: easier members.
- PumpConversion.ConvertFromTokens: starts from the tokens, without StripMetaComments and
  Tokenize before the parser and BeautifyCode after the run.
- PumpConversion.GeneratedIsMeaning: the same, it relates tokens to text before long lines
  are wrapped.
- PrimeTables.PreCalculatedPrimeTable.CalculatePrimesUpTo: says nothing of max == INT_MAX,
  where max + 1 overflows before it is called, nor of max below 1.
- PrimeTables.PreCalculatedPrimeTable.constructor: says nothing of max from 1073741827 on,
  where CalculatePrimesUpTo overflows, nor of max below 1.
- File-system calls and the other path operations.
