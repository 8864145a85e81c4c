# Models of the amplihack runtime

Dafny models of the parts of amplihack that carry state, search, parsing or arithmetic, with
proofs of what those parts are for. `dafny verify dfyconfig.toml` checks all of it.

| component | modules |
|---|---|
| install lock: exclusive create, stale-lock reclaim, crashes | `InstallLock` |
| double-checked native install: copy, rename, release then source | `NativeInstall` |
| breadth-first file search | `FindBinary` |
| arithmetic language: characters, tokens, grammar, evaluator, printer, errors | `SafeCalc`, `SafeCalcErrors`, `SafeCalcText`, `SafeCalcPrinter` |
| similarity measures | `Similarity` |
| knowledge memory with an incrementally built similarity index | `HierarchicalMemory` |
| bounded graph retrieval over that index | `GraphRag` |
| unified-diff scanner against a diff printer | `DiffScan`, `DiffScanExact` |
| fenced code blocks in running text | `CodeBlocks` |
| size cut on character boundaries | `Utf8` |
| bounded priority queue | `TaskQueue` |
| median voting | `MedianVoting` |
| sample variance and noisy questions | `SampleVariance` |
| experiment matrix, cell ids, averages | `ExperimentMatrix` |
| reviewer majority | `ReviewerVoting` |
| shared: failure types, strings and lines, numerals, stable sort | `Wrappers`, `Text`, `Decimal`, `StableSort` |

Code that changes things step by step is modelled by methods and classes whose contracts tie the
new state to a specification function; the properties are then proved of that function. The install
protocol is a state machine: one step per system call, any number of callers in any number of
processes, any interleaving, and a crash possible between any two steps. Where a comment and the
code disagree the model follows the code: `grade_with_votes` is described as averaging, but takes
the median.

## What does not hold, and exactly when it does

* **Lock.** Reading the holder, testing it and removing the file are three system calls. A caller
  that was slow between the first and the last can delete a lock created since. Mutual exclusion
  therefore holds exactly when no lock-creating process that may exit leaves two callers outside it
  (`MutualExclusionExactly`; the failing run is `TwoInside`). Taken as one step it always holds.
* **Reclaim.** A lock left behind is not always reclaimed. Somebody can still get in exactly when some
  running caller is inside, finds no lock, is about to remove a stale one, or has read or would read
  the pid of another process that has exited or may exit (`MayEnterExactly`; `MayEnterAsExactly` says
  when a given caller can). It fails for a blank
  file, left by a process that dies or whose write fails before the pid is in (`CrashOrphans`,
  `FailedWriteOrphans`, `OrphanBlocksForever`), and for a file that names a process which stays though
  its caller has left (`FailedCloseBlocks`).
* **Install.** A temp cleanup that throws after both release copies succeeded sends the caller on
  to a source build, which removes the main binary before renaming. "Hooks present implies main
  present" and "at most one install" hold exactly when that cannot happen (`RootOkExactly`,
  `AtMostOneInstallExactly`), and "what a call returns stays there" exactly when it cannot happen
  beside a second caller (`ReturnsLastExactly`).
* **Diff scan.** A file header is recognised only if it begins with the bare prefix "b/": a quoted one
  leaves the previous file current, and a tab after the path goes into the name (`QuotedHeader`,
  `TabbedHeader`). An inserted line beginning "++" is never scanned; one beginning "++ b/" is also taken
  for a file header and not counted; a "\ No newline at end of file" marker is counted as a line.
  The report is right exactly when every inserted line with a suspicious character begins otherwise
  than "++", is scanned under its file's path, and follows as many markers as "++ b/" lines in its
  hunk (`DiffScanExactly`). It is empty exactly when every such line begins "++" (`PassesExactly`).
* **Quoted reasons.** Multi-vote grading means to quote the reason of the vote closest to the median
  but looks the sorted position up among the unsorted reasons. With c votes below the lower middle
  vote it quotes vote number c, which is a closest one exactly when it lies between the middle votes
  (`QuotedClosestExactly`, `QuotesAnother`).
* **Cell totals.** `total_cells` documents the number of cells but counts an empty list as one;
  it agrees with `matrix_entries` exactly when neither list is empty (`TotalCellsExactly`).
* **Cell ids.** The model is read back from an id exactly when it neither contains "__" nor ends in
  "_" (`ModelReadBack`); any other model shares the ids of all its cells with such models
  (`OwnIdsExactly`, `SharedId`), and every model's average is its own exactly when there is no other
  (`AveragesOwnCells`).
* **Code blocks.** The blocks meant are extracted exactly when none contains a line that trims to
  three backticks (`ExtractExactly`).

## Model

| member | source | states |
|---|---|---|
| `InstallLock.MutualExclusionExactly` | npm/lib/bootstrap.js:248-279 | For any set of callers and processes: with holder read, liveness test and removal as separate system calls, no run ever puts two live callers between acquire and release if and only if no lock-creating process that may exit leaves two callers outside itself. With the three taken as one step it always holds, crashes included |
| `InstallLock.SafeWhileNoCreatorExits` | npm/lib/bootstrap.js:248-279 | As long as no process exits after creating the lock file, any number of racing callers is mutually exclusive |
| `InstallLock.ReachableInv` | npm/lib/bootstrap.js:248-279 | Under either condition of MutualExclusionExactly, every reachable state keeps the invariant behind exclusion: every live owner's own file is the one the lock path names, no two callers share a file, and a pid found in a file is that of a process that created one |
| `InstallLock.StepKeepsInv` | npm/lib/bootstrap.js:248-279 | Each single step, crash steps and failed writes included, keeps that invariant |
| `InstallLock.RemovalHitsNoOwner` | npm/lib/bootstrap.js:266-271 | When a stale lock is removed by a caller that can be the only survivor, no live owner loses its lock file |
| `InstallLock.OwnerDiesUnderTwoReaders` | npm/lib/bootstrap.js:266-269 | A reachable state in which two live callers have both read the pid of an owner that has since exited |
| `InstallLock.TwoInside` | npm/lib/bootstrap.js:266-271 | From there one caller reclaims and re-creates the lock and the other deletes the new lock and creates its own: two callers are inside at once |
| `InstallLock.MayEnterExactly` | npm/lib/bootstrap.js:229-279 | In every state whose lock path names a file (ReachableWell: every reachable one), some continuation lets some caller in if and only if some running caller is inside, finds no lock, is about to remove a stale one, or has read or would read the pid of another process that has exited or may exit |
| `InstallLock.MayEnterAsExactly` | npm/lib/bootstrap.js:229-279 | For each caller d: some continuation lets d itself in if and only if d runs and the lock path names nothing, some running caller is inside or is about to free it without d having to exit, or d can reclaim it |
| `InstallLock.HandsOver` | npm/lib/bootstrap.js:256-264 | For any two callers a reachable state with every process running in which the first has held the lock and given it back and the second holds it, its pid in the file |
| `InstallLock.GivesUp` | npm/lib/bootstrap.js:265-277 | A caller that finds the lock of a living process waits; trying again or giving up changes nothing but where it is |
| `InstallLock.UnreadableWaits` | npm/lib/bootstrap.js:266-277 | A lock file that cannot be read is waited for, whatever it contains |
| `InstallLock.ReachableWell` | npm/lib/bootstrap.js:248-279 | Every reachable state has its callers, a lock path that names a written or blank file, and no separate reads when the reclaim is one step |
| `InstallLock.FailedCloseBlocks` | npm/lib/bootstrap.js:257-262 | A write that fails after the pid is in the file, by a process that does not exit, is reached and shuts everyone out although the file is not blank |
| `InstallLock.OrphanBlocksForever` | npm/lib/bootstrap.js:229-271 | The case of a blank file with nobody inside: no continuation of the run, whether the reclaim is one step or three, ever lets a caller in, and the file stays, because blank text is never taken for a dead holder |
| `InstallLock.CrashOrphans` | npm/lib/bootstrap.js:257-262 | That state is reached by any process that may exit between creating the file and writing its pid |
| `InstallLock.FailedWriteOrphans` | npm/lib/bootstrap.js:257-262 | It is also reached by a failed pid write, with every process still running |
| `NativeInstall.RootOkExactly` | npm/lib/bootstrap.js:569-696 | Given mutual exclusion, every state of every run from an acceptable root keeps "hooks present implies main present, and both complete" if and only if a throwing temp cleanup cannot send a release installer on to a source build |
| `NativeInstall.ReturnedMeansInstalledForGood` | npm/lib/bootstrap.js:641-696 | Without the hazard, whenever any call has returned, on any path, both binaries are complete and executable then and after every continuation of the run |
| `NativeInstall.AtMostOneInstallExactly` | npm/lib/bootstrap.js:657-696 | However many callers race, crash, fail or fall back, at most one install finishes in every run, if and only if there is no such hazard |
| `NativeInstall.ReturnsLastExactly` | npm/lib/bootstrap.js:641-696 | In every run a returned call means both binaries are complete then and ever after, if and only if the hazard does not meet a second caller |
| `NativeInstall.ReturnsBeforeRemoval` | npm/lib/bootstrap.js:641-696 | The failing run: a second caller finds both binaries and returns, then the cleanup throws and the source build removes the main binary |
| `NativeInstall.OneInCritical` | npm/lib/bootstrap.js:661-695 | Between taking and giving back the lock there is at most one running caller |
| `NativeInstall.StepKeepsInv` | npm/lib/bootstrap.js:281-292 | Every step keeps the root and every caller's place consistent, and no step ever takes away an installed pair |
| `NativeInstall.CleanupThrowsAfterCopying` | npm/lib/bootstrap.js:605-607 | A concrete reachable run: both release copies succeed, the cleanup throws, the source build removes the main binary while hooks stays |
| `NativeInstall.MayReturnExactly` | npm/lib/bootstrap.js:641-696 | From the empty root each caller can come to return its paths if and only if some caller may use the release or has a workspace to build in |
| `NativeInstall.ReturnsFromRelease` | npm/lib/bootstrap.js:672-675 | A caller not told to skip the release can return from it: both binaries complete, one install, the lock free, nobody else touched |
| `NativeInstall.ReturnsFromBuild` | npm/lib/bootstrap.js:672-684 | A caller with a workspace can return from a source build, when told to skip the release or after that failed, with or without a throwing cleanup: the same state |
| `NativeInstall.ReturnsAfterWaiting` | npm/lib/bootstrap.js:657-665 | A caller that came to the lock while another copied finds the binaries behind it and returns too, with one install in all |
| `NativeInstall.ThrowsWithNothing` | npm/lib/bootstrap.js:672-694 | When every way is skipped, missing or fails, the call throws, nothing is installed and the lock is free |
| `NativeInstall.ThrowsAtLock` | npm/lib/bootstrap.js:256-264 | A call that cannot open the lock file throws, with nothing installed and the lock free |
| `NativeInstall.ThrowsAtWrite` | npm/lib/bootstrap.js:257-264 | A call whose pid write fails throws with nothing installed, and its lock file stays |
| `NativeInstall.ThrowsThoughInstalled` | npm/lib/bootstrap.js:693-695 | A call that installed both binaries still throws when its lock file cannot be removed, and the lock stays |
| `FindBinary.Find` | npm/lib/bootstrap.js:172-189 | The file found is, of those at the least depth in the whole tree, the first in listing order, and the search throws exactly when the tree holds no such file; the queue loop ends |
| `FindBinary.FirstAtExactly` | npm/lib/bootstrap.js:175-186 | The first file of a depth in listing order is a path to a wanted file of that depth, and there is none exactly when there is no such path |
| `FindBinary.ReadDirectory` | npm/lib/bootstrap.js:175-186 | One directory: a wanted file directly in it, or exactly the sub-directories through which any deeper one is reached |
| `FindBinary.LeastDepth` | npm/lib/bootstrap.js:173-182 | Because the queue is ordered by depth, a match in its first directory is no deeper than any other match in the tree |
| `SafeCalcText.SafeEval` | crates/amplihack-agent-core/src/safe_calc.rs:7-15 | The answer to every text: Ok(v) exactly when the characters lay out a token list that has a derivation in the documented grammar with value v; the division error when the only derivation has a zero divisor; the tokenizer's error when something in the text is no token; and otherwise the error of the place where the tokens stop being the beginning of an expression, unless a zero divisor stands before it |
| `SafeCalcText.EvalTokens` | crates/amplihack-agent-core/src/safe_calc.rs:9-14 | On tokens: Ok(v) exactly when the whole list has a derivation with value v and no zero divisor, and otherwise which error |
| `SafeCalcErrors.ErrorExactly` | crates/amplihack-agent-core/src/safe_calc.rs:9-167 | Tokens are refused at a position if and only if they are no expression and that is the length of their longest beginning that some expression begins with; the error is an unexpected token or end where an operand may come next, an unexpected token behind a whole expression, and a missing or expected closing parenthesis elsewhere |
| `SafeCalcErrors.SameExpr` | crates/amplihack-agent-core/src/safe_calc.rs:79-95 | The descent looks at no token beyond the one it stops at |
| `SafeCalcErrors.CompletesExpr` | crates/amplihack-agent-core/src/safe_calc.rs:79-95 | What was read up to an error can be completed to an expression, going on with an operand or a closing parenthesis as the error says |
| `SafeCalc.NoValueExpr` | crates/amplihack-agent-core/src/safe_calc.rs:107-113 | A derivation has no value if and only if behind some division sign in it stands an operand of value zero |
| `SafeCalc.DerivationExactly` | crates/amplihack-agent-core/src/safe_calc.rs:78-167 | Recursive descent finds a tree for the whole list if and only if the list is the yield of that tree |
| `SafeCalc.DerivationUnique` | crates/amplihack-agent-core/src/safe_calc.rs:78-167 | The grammar is unambiguous: two derivations of the same tokens are equal |
| `SafeCalc.ExprFound` | crates/amplihack-agent-core/src/safe_calc.rs:79-95 | Completeness in context: wherever a sum stands in a token list, the descent reads it and goes on from its end |
| `SafeCalc.ParseExpr` | crates/amplihack-agent-core/src/safe_calc.rs:79-95 | The loop returns the value and end of the derivation read from pos; without one its error, or the division error exactly when a zero divisor stands before the place of that error; ends on (tokens left, rank) |
| `SafeCalc.ParseTerm` | crates/amplihack-agent-core/src/safe_calc.rs:98-118 | The same for products, with the zero-divisor error |
| `SafeCalc.ParseUnary` | crates/amplihack-agent-core/src/safe_calc.rs:121-137 | The same for one optional sign before a primary |
| `SafeCalc.ParsePrimary` | crates/amplihack-agent-core/src/safe_calc.rs:140-167 | The same for numbers and parentheses |
| `SafeCalc.TreeExpr` | crates/amplihack-agent-core/src/safe_calc.rs:78-95 | Soundness: a tree that is read yields exactly the tokens from pos to the returned position, which is strictly further and within bounds |
| `SafeCalcText.Tokenize` | crates/amplihack-agent-core/src/safe_calc.rs:28-76 | The index loop computes the tokens, or the first error, that LexExactly characterises |
| `SafeCalcText.LexExactly` | crates/amplihack-agent-core/src/safe_calc.rs:28-76 | The tokenizer accepts a text as a token list if and only if the text spells those tokens with any spaces between them and no two numbers touching |
| `SafeCalcText.LexErrorExactly` | crates/amplihack-agent-core/src/safe_calc.rs:33-72 | A text is refused with an error if and only if behind an accepted beginning of it, that does not run on into a number, stands a character no token begins with, or a run of digits and dots that is no number |
| `SafeCalcText.LexSplits` | crates/amplihack-agent-core/src/safe_calc.rs:28-76 | An accepted beginning is read first and then the rest, wherever no number runs across |
| `SafeCalcText.LiteralExactly` | crates/amplihack-agent-core/src/safe_calc.rs:60-68 | A run is a number if and only if it is digits with at most one dot and at least one digit, and its value is that of the whole part plus the fraction's digits over the power of ten for their count |
| `SafeCalcText.ScanNumber` | crates/amplihack-agent-core/src/safe_calc.rs:60-65 | The inner loop stops at the end of the longest run of digits and dots |
| `SafeCalcPrinter.RoundTrip` | crates/amplihack-agent-core/src/safe_calc.rs:28-167 | Printing any expression tree with any number spelling and any spaces gives a text that denotes the tree's value and nothing else |
| `SafeCalcPrinter.PrintThenEvaluate` | crates/amplihack-agent-core/src/safe_calc.rs:7-15 | Running tokenizer and parser on the printed characters gives the tree's value, or the division error exactly when the tree has no value |
| `SafeCalcPrinter.PrintableExactly` | crates/amplihack-agent-core/src/safe_calc.rs:28-167 | A tree has such a text, so the round trip applies to it, if and only if every literal in it is a finite decimal |
| `SafeCalcPrinter.SpellingExactly` | crates/amplihack-agent-core/src/safe_calc.rs:60-68 | A number has a literal if and only if it is n / 10^k for naturals n and k |
| `SafeCalcPrinter.PrintMeans` | crates/amplihack-agent-core/src/safe_calc.rs:78-167 | The printed derivation stands for the tree it was printed from, at every precedence level |
| `SafeCalcPrinter.FewestExpr` | crates/amplihack-agent-core/src/safe_calc.rs:78-167 | No derivation of the same tree has fewer parentheses than the printed one |
| `SafeCalcPrinter.MeaningExpr` | crates/amplihack-agent-core/src/safe_calc.rs:78-118 | The value of a derivation is that of the tree it stands for in real arithmetic: sums, differences, products and quotients of the operands' values (left associativity, precedence) |
| `Similarity.JaccardTriangle` | crates/amplihack-agent-core/src/similarity.rs:147-158 | One minus the Jaccard similarity obeys the triangle inequality for all sets, empty ones included |
| `Similarity.JaccardRange` | crates/amplihack-agent-core/src/similarity.rs:147-158 | Jaccard lies in [0,1], is 1 exactly for equal non-empty sets and 0 exactly for disjoint ones |
| `Similarity.DistanceForm` | crates/amplihack-agent-core/src/similarity.rs:147-158 | On non-empty sets one minus the similarity is 2d / (|a| + |b| + d), where d counts the elements of exactly one of them |
| `Similarity.WordIsDistance` | crates/amplihack-agent-core/src/similarity.rs:147-158 | Word similarity is symmetric, in [0,1], and one minus it obeys the triangle inequality |
| `Similarity.TagIsDistance` | crates/amplihack-agent-core/src/similarity.rs:161-181 | The same for tag lists, including blank and empty ones |
| `Similarity.TagSetExactly` | crates/amplihack-agent-core/src/similarity.rs:161-181 | The tags compared are the lower-cased, trimmed ones that are not blank |
| `Similarity.CompositeWeights` | crates/amplihack-agent-core/src/similarity.rs:184-189 | Equal content counts for 0.5, equal tags for 0.2 and an equal concept for 0.3, and having nothing in common for 0, in every combination |
| `Similarity.CompositeIsDistance` | crates/amplihack-agent-core/src/similarity.rs:184-189 | The same for the weighted composite of words, tags and concepts |
| `HierarchicalMemory.HierarchicalMemoryLocal.StoreKnowledge` | crates/amplihack-agent-core/src/hierarchical_memory_local.rs:43-82 | Appends one node under the next serial name with the given category, confidence, source and tags and the trimmed content and concept, and one SIMILAR_TO edge per existing node at similarity 0.3 or more; keeps ids unique and the edge list equal to the index of the relation |
| `HierarchicalMemory.HierarchicalMemoryLocal.StoreEpisode` | crates/amplihack-agent-core/src/hierarchical_memory_local.rs:85-100 | Appends one episode, takes the next serial, leaves nodes and edges alone and keeps the same invariant |
| `HierarchicalMemory.HierarchicalMemoryLocal.constructor` | crates/amplihack-agent-core/src/hierarchical_memory_local.rs:26-36 | A new memory is empty, counts from 1 and satisfies the invariant |
| `HierarchicalMemory.Replay` | crates/amplihack-agent-core/src/hierarchical_memory_local.rs:25-100 | Any run of stores on a fresh memory ends with unique ids and edges equal to the index of all pairs |
| `HierarchicalMemory.IdsUnique` | crates/amplihack-agent-core/src/hierarchical_memory_local.rs:44-86 | No id is used twice, across nodes and episodes |
| `HierarchicalMemory.EdgesExactly` | crates/amplihack-agent-core/src/hierarchical_memory_local.rs:61-80 | An edge is present if and only if it runs from a newer node to an older one whose similarity is at least 0.3, with that similarity as weight |
| `HierarchicalMemory.NewEdgesInOrder` | crates/amplihack-agent-core/src/hierarchical_memory_local.rs:61-80 | The edges of a new node come in the order of the older nodes |
| `HierarchicalMemory.IndexOnePerPair` | crates/amplihack-agent-core/src/hierarchical_memory_local.rs:61-80 | There is at most one edge per unordered pair of nodes |
| `GraphRag.GraphRagRetriever.RetrieveSubgraph` | crates/amplihack-agent-core/src/graph_rag_retriever.rs:125-202 | Always: distinct ids, at most max_nodes, by falling confidence, inside the ball of max_depth hops around the keyword seeds, every listed edge a hop with its weight. With unique ids nothing is returned while something nearer to the seeds is left out; with fewer than max_nodes results: exactly that ball, and every hop out of the ball of one hop less to a stored id is listed |
| `GraphRag.NeighboursCarryWeights` | crates/amplihack-agent-core/src/graph_rag_retriever.rs:87-102 | The listed neighbours carry the weights of their edges, and every edge to a stored node gives one |
| `GraphRag.GraphRagRetriever.Expand` | crates/amplihack-agent-core/src/graph_rag_retriever.rs:158-187 | The depth loop: below the limit all nodes within the number of rounds done have been seen, at the limit it stops early |
| `GraphRag.GraphRagRetriever.ExpandSeed` | crates/amplihack-agent-core/src/graph_rag_retriever.rs:166-185 | Below the limit every neighbour of the seed is seen afterwards; whatever is gathered is one hop away; listed edges exist |
| `GraphRag.GraphRagRetriever.CollectSeeds` | crates/amplihack-agent-core/src/graph_rag_retriever.rs:140-155 | The keyword loop: below the limit every Semantic node mentioning a query word longer than two bytes is gathered once, and nothing else |
| `GraphRag.GraphRagRetriever.KeywordSearch` | crates/amplihack-agent-core/src/graph_rag_retriever.rs:49-72 | The Semantic nodes in whose lower-cased content or concept the lower-cased keyword occurs, stably sorted by falling confidence and cut at the limit; nothing for a blank keyword |
| `GraphRag.GraphRagRetriever.SimilarToExpand` | crates/amplihack-agent-core/src/graph_rag_retriever.rs:75-105 | The neighbours over edges of at least the given weight, in either direction, stably sorted by falling weight |
| `GraphRag.NextBall` | crates/amplihack-agent-core/src/graph_rag_retriever.rs:161-187 | Exploring the frontier turns the complete ball of n hops into the complete ball of n+1 hops |
| `GraphRag.HitsCompleteOrFull` | crates/amplihack-agent-core/src/graph_rag_retriever.rs:54-71 | Cut hits are either all matching nodes or as many distinct ones as the limit |
| `GraphRag.LookupLast` | crates/amplihack-agent-core/src/graph_rag_retriever.rs:80-86 | Among nodes with the same id the last one is looked up |
| `Text.SplitExactly` | crates/amplihack-agent-core/src/graph_rag_retriever.rs:140-146 | A query has exactly the words of which it is made up: whitespace, word, whitespace, word and so on to a last whitespace, with some between any two words |
| `Text.ContainsExactly` | crates/amplihack-agent-core/src/graph_rag_retriever.rs:60-61 | A text contains a word if and only if it is the word with something before and something behind it |
| `GraphRag.NeighboursAreHops` | crates/amplihack-agent-core/src/graph_rag_retriever.rs:87-102 | The listed neighbours are exactly the stored nodes one hop away |
| `GraphRag.NeighboursAreBruteForce` | crates/amplihack-agent-core/src/graph_rag_retriever.rs:87-102 | In a memory built by storing, reading the edge list gives exactly what comparing the node with every other node gives, each once, for any threshold |
| `GraphRag.BruteForceExactly` | crates/amplihack-agent-core/src/hierarchical_memory_local.rs:61-80 | The comparison lists a node if and only if it is another node whose similarity reaches the threshold, with that similarity, and no node twice |
| `GraphRag.ExpandValidMemory` | crates/amplihack-agent-core/src/graph_rag_retriever.rs:75-105 | On any valid memory similar_to_expand returns that comparison's answer, at the larger of the asked-for threshold and 0.3, sorted by weight |
| `StableSort.SortStable` | crates/amplihack-agent-core/src/graph_rag_retriever.rs:65-69 | Elements of equal key keep their order |
| `StableSort.SortSorts` | crates/amplihack-agent-core/src/graph_rag_retriever.rs:190-194 | The ranking orders, loses nothing and adds nothing |
| `DiffScanExact.DiffScanExactly` | bins/scan-invisible-chars/src/main.rs:66-102 | For any consistent multi-file, multi-hunk change, whatever its file headers say (bare, quoted, with a tab and a timestamp, without the prefix), scanning its rendered text reports every suspicious character of every inserted line exactly once with its file, line and column in the new file, if and only if every inserted line with a suspicious character does not begin "++", is scanned under the name that is its file's path, and has before it in its hunk as many no-newline markers as inserted lines beginning "++ b/" |
| `DiffScanExact.PassesExactly` | bins/scan-invisible-chars/src/main.rs:66-102 | Nothing at all is reported if and only if every inserted line with a suspicious character begins "++" |
| `DiffScanExact.BareHeader` | bins/scan-invisible-chars/src/main.rs:72-75 | A header "b/" and the path is read as that path, without a carriage return at its end |
| `DiffScanExact.TabbedHeader` | bins/scan-invisible-chars/src/main.rs:72-75 | A header with a tab after the path is read with the tab and what follows it, never as the path |
| `DiffScanExact.QuotedHeader` | bins/scan-invisible-chars/src/main.rs:72-75 | A quoted header is not recognised: the previous file stays current |
| `DiffScanExact.ScanRenderedDiff` | bins/scan-invisible-chars/src/main.rs:66-102 | The same of the scanning loop run on the rendered text |
| `DiffScanExact.ScanRenderedText` | bins/scan-invisible-chars/src/main.rs:66-102 | What the scan of the text reports for every rendered change, clean or not: the file and line it goes by, line by line |
| `DiffScanExact.HeaderLikeLineMisleads` | bins/scan-invisible-chars/src/main.rs:72-75 | After an inserted line beginning "++ b/" the next inserted line is reported under that line's text as its file and one line too early |
| `DiffScanExact.ScanIgnoresCr` | bins/scan-invisible-chars/src/main.rs:71-98 | A carriage return at the end of a line changes nothing, except in a file header |
| `DiffScan.ScanDiff` | bins/scan-invisible-chars/src/main.rs:66-102 | The nested loops return the findings of the line-by-line specification, which DiffScanExact characterises |
| `DiffScan.ScanText` | bins/scan-invisible-chars/src/main.rs:85-95 | The character loop adds one finding per suspicious character with its column counted from 1 |
| `DiffScan.SegmentFindingsAt` | bins/scan-invisible-chars/src/main.rs:83-98 | The expected findings are exactly the suspicious characters at inserted places of the new file, in order of line and column |
| `DiffScan.HeaderParses` | bins/scan-invisible-chars/src/main.rs:55-64 | From "@@ -a,b +c,d @@ section" the start c is recovered whatever the section text says, with counts written or omitted |
| `DiffScan.HeaderStart` | bins/scan-invisible-chars/src/main.rs:55-64 | Whatever stands between the plus sign and " @@" without "+", "@" and comma is the start if it trims to a numeral in range, and otherwise the start is 1 |
| `DiffScan.HeaderWithoutPlus` | bins/scan-invisible-chars/src/main.rs:55-64 | A header without a plus sign counts from 1 |
| `DiffScan.SuspiciousExactly` | bins/scan-invisible-chars/src/main.rs:14-53 | A character is reported under a name if and only if its code point has that name in the table, or it is the tag of an ASCII character from 0x20 to 0x7F, one of the first 16 variation selectors, or one of the 17th to the 256th, and the name is the one of that kind with the code point |
| `DiffScan.ListedExactly` | bins/scan-invisible-chars/src/main.rs:16-46 | The code points classified by name are exactly those with an entry in the table of names |
| `DiffScan.NameReadBack` | bins/scan-invisible-chars/src/main.rs:14-53 | The name printed for a suspicious character tells its code point: reading the name back gives it |
| `DiffScan.AsciiIsPlain` | bins/scan-invisible-chars/src/main.rs:14-53 | No ASCII character is ever reported |
| `CodeBlocks.ExtractExactly` | crates/amplihack-agent-core/src/prompt_utils.rs:93-119 | For any interleaving of prose, fenced blocks and a possibly unclosed last block, extraction returns exactly the blocks meant if and only if no block contains a line that reads as its closing fence |
| `CodeBlocks.ExtractCodeBlocks` | crates/amplihack-agent-core/src/prompt_utils.rs:93-119 | The nested loops return, for any text, the blocks of the clean document that the text is |
| `CodeBlocks.ReadContent` | crates/amplihack-agent-core/src/prompt_utils.rs:103-109 | The inner loop takes the lines up to the first that trims to three backticks and passes that line |
| `CodeBlocks.ReadIsDocument` | crates/amplihack-agent-core/src/prompt_utils.rs:97-116 | Every list of lines is a well-formed document none of whose blocks contains its closing fence |
| `CodeBlocks.ReadBack` | crates/amplihack-agent-core/src/prompt_utils.rs:97-116 | It is one in only one way: reading the lines of a clean document gives the document back |
| `CodeBlocks.RoundTrip` | crates/amplihack-agent-core/src/prompt_utils.rs:93-119 | Writing prose and fenced code in turn and extracting gives each block once, in order, with its language trimmed and its content whole |
| `CodeBlocks.OpensExactly` | crates/amplihack-agent-core/src/prompt_utils.rs:98 | A line opens a block if and only if it is indentation, three backticks and anything else |
| `CodeBlocks.FenceLanguage` | crates/amplihack-agent-core/src/prompt_utils.rs:98-101 | Its language is what follows the backticks, trimmed, whatever the indentation |
| `CodeBlocks.ClosesExactly` | crates/amplihack-agent-core/src/prompt_utils.rs:103-108 | A line closes a block if and only if it is three backticks with nothing but whitespace around them |
| `Text.LinesOfUnlines` | crates/amplihack-agent-core/src/prompt_utils.rs:95 | Splitting terminated lines gives the lines back, up to a carriage return at the end of each |
| `Text.LinesExactly` | crates/amplihack-agent-core/src/prompt_utils.rs:95 | The lines of a text are the parts between line feeds, each without one carriage return at its end, and the unterminated last part as it is unless it is empty |
| `Text.TrimExactly` | crates/amplihack-agent-core/src/prompt_utils.rs:98-107 | Trimming takes away exactly the whitespace at both ends |
| `Text.JoinTerminates` | crates/amplihack-agent-core/src/prompt_utils.rs:113 | A block's content is its lines, each but the last followed by a line feed |
| `Utf8.SnapToBoundary` | crates/amplihack-cli/src/auto_mode_append.rs:51-55 | At most three steps down, to the greatest character boundary not above the start; the kept bytes encode a prefix of the code points |
| `Utf8.BoundaryExactly` | crates/amplihack-cli/src/auto_mode_append.rs:52 | The byte test holds exactly at the ends of encoded prefixes (section 3 of RFC 3629) |
| `Utf8.EncodeExactly` | crates/amplihack-cli/src/auto_mode_append.rs:42 | The bytes counted for a character are a lead byte that tells their number and continuation bytes, whose bits are the code point, in the shortest form (section 3 of RFC 3629), and no others |
| `Utf8.CutToSize` | crates/amplihack-cli/src/auto_mode_append.rs:41-60 | Content within the limit is unchanged; longer content becomes the longest prefix of its code points that fits half the limit, at most three bytes less, and the note, and fits the limit |
| `Utf8.BoundaryNearby` | crates/amplihack-cli/src/auto_mode_append.rs:51-54 | Some boundary lies within three bytes below any index |
| `TaskQueue.Run` | crates/amplihack-agent-core/src/task_queue.rs:20-98 | Any run of calls answers as four FIFO queues do; the one list is critical ++ high ++ normal ++ low in arrival order and never exceeds the capacity |
| `TaskQueue.Queue.Add` | crates/amplihack-agent-core/src/task_queue.rs:31-47 | Refused exactly at capacity; otherwise the task goes to the end of its priority's FIFO and the other FIFOs stay |
| `TaskQueue.Queue.Take` | crates/amplihack-agent-core/src/task_queue.rs:50-52 | The oldest task of the highest pending priority, removed from its FIFO; nothing exactly when all are empty |
| `TaskQueue.Queue.DrainPriority` | crates/amplihack-agent-core/src/task_queue.rs:85-97 | Returns exactly one FIFO in order, empties it and leaves the others unchanged |
| `TaskQueue.Queue.RemoveAll` | crates/amplihack-agent-core/src/task_queue.rs:80-82 | All four FIFOs are empty |
| `TaskQueue.OrderedIsConcat` | crates/amplihack-agent-core/src/task_queue.rs:38-45 | A list with falling priorities is its four FIFOs one after the other |
| `TaskQueue.InsertAppends` | crates/amplihack-agent-core/src/task_queue.rs:40-45 | Inserting before the first lower priority appends to one FIFO and keeps the list ordered |
| `TaskQueue.FrontIsHighest` | crates/amplihack-agent-core/src/task_queue.rs:50-52 | The front of an ordered list is the oldest task of the highest pending priority |
| `TaskQueue.TasksConserved` | crates/amplihack-agent-core/src/task_queue.rs:31-97 | Over any run without clear, every accepted task is pending or handed out, as often as it was accepted |
| `TaskQueue.RunBounded` | crates/amplihack-agent-core/src/task_queue.rs:31-47 | No run exceeds the capacity or files a task under another priority |
| `MedianVoting.MultiVoteGrade` | crates/amplihack-agent-eval/src/long_horizon.rs:326-387 | One score per dimension in the asked order: the clamped median of the votes for it with the reason quoted, 0 without votes; a single grade is passed through |
| `MedianVoting.MedianExactly` | crates/amplihack-agent-eval/src/long_horizon.rs:356-362 | The median is the mean of the two numbers at the middle places in the order of the votes, each with at most as many votes below it as its place says and more not above it |
| `MedianVoting.ScoreOfExactly` | crates/amplihack-agent-eval/src/long_horizon.rs:343-350 | A grade's vote on a dimension is its first score with that dimension, and there is none exactly when no score has it |
| `MedianVoting.ClampNearest` | crates/amplihack-agent-eval/src/long_horizon.rs:50-58 | A score is the number in [0,1] closest to the one given |
| `MedianVoting.QuotedIsCount` | crates/amplihack-agent-eval/src/long_horizon.rs:364-381 | The reason quoted is that of the grade whose number is the count of votes below the lower middle vote |
| `MedianVoting.QuotedClosestExactly` | crates/amplihack-agent-eval/src/long_horizon.rs:364-381 | With c the number of votes below the lower middle vote, the quoted reason is that of a vote closest to the median if and only if vote number c lies between the middle votes |
| `MedianVoting.QuotesAnother` | crates/amplihack-agent-eval/src/long_horizon.rs:364-381 | For votes 0.5, 0 and 1 in this order the median is the first vote and the reason quoted is the second's |
| `MedianVoting.ScoresOrderFree` | crates/amplihack-agent-eval/src/long_horizon.rs:340-383 | Reordering the grades changes no dimension's score |
| `MedianVoting.ScoresMonotone` | crates/amplihack-agent-eval/src/long_horizon.rs:340-383 | Raising votes never lowers a dimension's score |
| `MedianVoting.ScoreFollowsMajority` | crates/amplihack-agent-eval/src/long_horizon.rs:340-383 | If more than half of the votes for a dimension lie in a part of [0,1], so does its score |
| `MedianVoting.MajorityBinds` | crates/amplihack-agent-eval/src/long_horizon.rs:356-362 | If more than half of the votes lie in an interval, so does the median, for odd and even counts |
| `MedianVoting.MedianMonotone` | crates/amplihack-agent-eval/src/long_horizon.rs:356-362 | The median is monotone in every vote |
| `MedianVoting.MedianOrderFree` | crates/amplihack-agent-eval/src/grader.rs:169-175 | The median depends only on the multiset of the votes |
| `MedianVoting.OrderStatistic` | crates/amplihack-agent-eval/src/long_horizon.rs:356-362 | The k-th sorted vote satisfies a down-closed property if and only if more than k votes do |
| `MedianVoting.GradeWithVotes` | crates/amplihack-agent-eval/src/grader.rs:151-180 | Between 1 and 9 calls; the first failure is passed on; otherwise the median with the last reasoning and the list of scores |
| `MedianVoting.VotedInRange` | crates/amplihack-agent-eval/src/grader.rs:169-180 | There is a grade exactly when the median is in [0,1] and there is a reasoning, and it is the median with that reasoning and all the scores in rising order; otherwise the error says which; in-range graders never cause a range error |
| `MedianVoting.VoteCountNearest` | crates/amplihack-agent-eval/src/grader.rs:159 | The number of calls is the one from 1 to 9 closest to what was asked for |
| `SampleVariance.VarianceBounds` | crates/amplihack-agent-eval/src/long_horizon_multi_seed.rs:74-82 | For two or more scores in [0,1] the variance lies in [0, n/(4(n-1))] and is 0 exactly when all scores are equal |
| `SampleVariance.BoundReached` | crates/amplihack-agent-eval/src/long_horizon_multi_seed.rs:74-82 | Half zeros and half ones reach the upper bound, for every even count |
| `SampleVariance.VarianceOfTwo` | crates/amplihack-agent-eval/src/long_horizon_multi_seed.rs:74-82 | Of two scores the variance is half their squared difference |
| `SampleVariance.VarianceOrderFree` | crates/amplihack-agent-eval/src/long_horizon_multi_seed.rs:124-130 | The order in which a hash map lists the scores does not matter |
| `SampleVariance.NoisyExactly` | crates/amplihack-agent-eval/src/long_horizon_multi_seed.rs:130-131 | A question is noisy if and only if it has two scores and their variance exceeds 0.01 |
| `SampleVariance.SplitQuestions` | crates/amplihack-agent-eval/src/long_horizon_multi_seed.rs:122-147 | The loop reports every question and lists exactly the noisy ones apart, in order |
| `ExperimentMatrix.MatrixEntries` | crates/amplihack-agent-eval/src/tla_prompt_experiment.rs:95-125 | The three nested loops put every (model, refinement, repetition) at its mixed-radix index, and there are as many entries as the product says, no repetitions counting as one; in smoke mode only the first model with the first refinement |
| `ExperimentMatrix.EntryByDivision` | crates/amplihack-agent-eval/src/tla_prompt_experiment.rs:113-123 | Entry k is (models[k/(r*reps)], refinements[(k/reps) mod r], k mod reps) |
| `ExperimentMatrix.TotalCellsExactly` | crates/amplihack-agent-eval/src/tla_prompt_experiment.rs:128-136 | The announced total equals the number of entries if and only if there is a model and a refinement, in smoke mode too |
| `ExperimentMatrix.EntriesDistinct` | crates/amplihack-agent-eval/src/tla_prompt_experiment.rs:113-123 | With distinct models and refinements no cell occurs twice |
| `ExperimentMatrix.ModelReadBack` | crates/amplihack-agent-eval/src/tla_prompt_experiment.rs:397 | The part of a cell id before the first "__" is the model if and only if the model has no "__" inside and no "_" at its end |
| `ExperimentMatrix.CellIdsInjective` | crates/amplihack-agent-eval/src/tla_prompt_experiment.rs:388-390 | For such models, different cells have different ids |
| `ExperimentMatrix.FieldsReadBack` | crates/amplihack-agent-eval/src/tla_prompt_experiment.rs:388-390 | An id with such a model and such a refinement reads back as model, refinement and numeral, in this order |
| `ExperimentMatrix.OwnIdsExactly` | crates/amplihack-agent-eval/src/tla_prompt_experiment.rs:388-390 | A model shares no cell id with a cell of any such model if and only if it is itself one: no "__" inside and no "_" at its end |
| `ExperimentMatrix.SharedId` | crates/amplihack-agent-eval/src/tla_prompt_experiment.rs:388-390 | Every cell of any other model has the id of a cell of a shorter model without "__" inside or "_" at its end |
| `ExperimentMatrix.PerModelScores` | crates/amplihack-agent-eval/src/tla_prompt_experiment.rs:393-411 | Exactly the models read from some id get an average, and it is the mean of the scores gathered for it |
| `ExperimentMatrix.AveragesOwnCells` | crates/amplihack-agent-eval/src/tla_prompt_experiment.rs:393-411 | For every model the scores gathered are exactly those of its own cells, if and only if every cell's model is of that kind |
| `ExperimentMatrix.AveragesOrderFree` | crates/amplihack-agent-eval/src/tla_prompt_experiment.rs:395-402 | The order in which the map is visited changes no average |
| `ReviewerVoting.MajorityExactly` | crates/amplihack-agent-eval/src/self_improve.rs:56-63 | For any number n of reviewers, at least 1, and any confidence c: a majority approves if and only if c >= 0.6, or c >= 0.5 and n is not 2 |
| `ReviewerVoting.CountAbstentions` | crates/amplihack-agent-eval/src/self_improve.rs:222-260 | Only the third seats of the rotation abstain, and only below a confidence of 0.4 |
| `ReviewerVoting.CountApprovals` | crates/amplihack-agent-eval/src/self_improve.rs:222-260 | Seats approve by kind: the first from 0.5 on, the second from 0.6, the third from 0.4 |
| `ReviewerVoting.MajorityMonotone` | crates/amplihack-agent-eval/src/self_improve.rs:222-260 | More confidence never loses an approval |
| `ReviewerVoting.CastAll` | crates/amplihack-agent-eval/src/self_improve.rs:222-260 | The loop casts each reviewer's vote by its seat in the rotation, and its votes are approved exactly in that closed form |
| `ReviewerVoting.RunIteration` | crates/amplihack-agent-eval/src/self_improve.rs:309-319 | With at least one reviewer the patches applied are, when they apply by themselves, as many as the closed form approves, otherwise none |

## Left out

- Floating point: scores, weights and parsed literals are exact reals; rounding, NaN, infinities and overflow are not modelled.
- Integer width: `usize` is unbounded except where a hunk header is parsed, which fails above 2^64 - 1; `u8` reviewer and vote counts are bounded where they enter.
- Lower-casing, Unicode case folding and the similarity tokenizer: parameters of the models, so the theorems hold for any of them.
- Install lock: `pidOf` is fixed and pids are never reused; a pid write is seen whole or not at all; a read that fails counts as an empty file, as in the code; timeouts and polling are steps that may happen at any time.
- Install lock and native install are state machines over values, not classes: what matters is the interleaving of system calls between processes, which a class method would hide.
- Download, checksum, `tar`, `cargo`, release-tag lookup and caches: one step that succeeds or fails; the `mkdir` before the lock does not fail.
- FindBinary.Find: directories do not change during the search and can be read; links are neither file nor directory.
- The wording of the evaluator's error messages: errors are cases of a datatype.
- `import_from_json`, `export_to_json`, statistics, aggregation, and the memory's own keyword-scored `retrieve_subgraph`: the id and edge invariants are for memories built by storing.
- GraphRag.GraphRagRetriever.RetrieveSubgraph: once max_nodes is reached it does not say which further edges are listed, nor which of the nodes equally near to the seeds are taken.
- `get_provenance`, node metadata and creation times.
- Similarity.CompositeIsDistance: the reranking of search results and the anchor-token extractors are not modelled.
- DiffScanExact.DiffScanExactly: extended header lines that begin with "+", "-" or "@", combined diffs of merges, and files of more than 2^64 - 1 lines are outside its printer; binary files have no text to report on.
- CodeBlocks.RoundTrip: texts whose last line has no line feed; ExtractExactly and ExtractCodeBlocks have no such limit.
- Utf8.CutToSize: the redactions that follow the cut, which can lengthen the text.
- SampleVariance.SplitQuestions: grouping the scores by question and the per-category statistics; the square root is the relation `IsStddev`.
- ExperimentMatrix.PerModelScores: a hash map is visited in a given order, and AveragesOrderFree shows the order does not matter.
- ReviewerVoting.CastAll: the patch is its confidence; identifiers and logging are not modelled.
- `peek`, `len`, `is_empty` and `remaining` of the task queue: views of the list that `Run` already determines from the four FIFOs.
- `Default` implementations and serialization.
- Keyword-heuristic graders, prompt templates, agent lifecycles, subprocess and remote adapters, documentation and user interface.
