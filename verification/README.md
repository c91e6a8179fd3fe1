# Verified model of vibefeld

vibefeld keeps a proof that several agents work on at the same time. Everything that happens is an event file in a ledger
directory; state is what replaying the events yields. This project models in Dafny the parts of it whose correctness is not plain
from reading one function, and proves what they promise, for all inputs and all runs.

`dafny verify dfyconfig.toml` checks the whole project.

## What is modelled

**The ledger as a concurrent protocol** (`LedgerProtocol`, `LedgerSerial`, `LedgerReads`, `LedgerCas`,
`LedgerAnswers`, `LedgerRollback`). Any number of calls
(append, compare-and-swap append, batch append with rollback, lock-free readers) take steps at the granularity of file
operations: exclusive creation of the lock file, writing its metadata, listing the directory, rename, remove. Exclusive creation
and rename are atomic, as open() with O_CREAT and O_EXCL and rename() are in the System Interfaces volume of IEEE Std 1003.1. A
failure can occur at every step. The theorems are about all runs of this transition system. `Workflow` adds what the guarded
service operations do with it: claiming, refreshing and releasing nodes.

**The same operations on one directory** (`Filename`, `LedgerFiles`, `LedgerLayout`, `LedgerDirectory`). Under the lock, as
methods over a directory object: file names, loops, temporary files and rollback as the program has them, with a failure at any
point as a parameter.

**Claim locks** (`PersistentLocks`, `ManagerRuns`, `LockRuns`, `ClaimLocks`). The persistent manager keeps a map in memory and
records lock events in the ledger; the plain manager hands out lock objects that agents may keep and refresh while the clock
moves. Both appear twice: as classes whose methods are the program's, with outcomes of appends and reads, events of other
processes, refreshes by holders and clock readings as parameters; and as transition systems whose steps are the moments at which
others can get in between. The theorems are about all runs of these, and the methods are proved to take such runs.

**Dependency graphs** (`Graph`, `CycleSearch`, `CycleDetection`, `Blocking`). Three-colour depth-first search in its three
versions, the check for a proposed dependency, and the propagation of blocking. `node.ValidateDependencies`
(internal/node/cycle.go:119-217) is the same algorithm as `cycle.DetectAllCycles`; `DetectAllCycles` stands for both.

**Taint** (`Taint`). The rule that passes doubt down the proof tree, its incremental propagation with cached ancestor lists, and
the events that trigger it.

**Text and encodings** (`GoText`, `Levenshtein`, `FuzzyMatch`, `FuzzyAnswers`, `ArgParse`, `ArgNormal`, `ExportTree`, `ExportMarkdown`,
`EscapeLatex`, `HashPreimage`, `HashLabels`). Edit distance and the suggestions built on it, the argument normaliser, the exported tree, LaTeX
escaping, and the strings that are hashed. `Sorting` and `Lexicographic` hold what several of them share.

Code that changes things step by step is modelled by methods and classes proved against specification functions; the lemmas are
about those functions.

## Where code and promise differ

- Readers take no lock and can read events of a batch that is then rolled back. A compare-and-swap commits on what its caller read
  exactly if no number the caller had read was removed in between (`LedgerCas.CompareAndSwapExactly`; it happens in
  `LedgerRollback.RollbackDefeatsCompareAndSwap`).
- `af reap` appends releases without a guard, on the strength of an earlier read; two of them can make the ledger unreadable for
  good (`Workflow.UnguardedReleaseBreaksLedger`; exactly when in `ReleaseAppliesExactly` and `ReadableExactly`).
- The comment at internal/lock/persistent.go:77-79 promises correctness across processes. The verification lets the last writer
  win: a manager with stale memory is granted a node that another holds (`PersistentLocks.BothGranted`, and for every state
  `ManagerRuns.UndisturbedClaim`). When several managers never report different owners for a node is said exactly by
  `ManagerRuns.OneOwnerExactly` and `ManagerRuns.BackedExactly`; what the verification gives by itself are `VerifyLockHolder`,
  `OneHolder` and `LaterAcquisitionWins`.
- A lock whose event was written but whose verification read failed is in the ledger and not in memory
  (`PersistentManager.Acquire`; exactly when in `ManagerRuns.InStepRunExactly`).
- The verification compares a position with a sequence number, so on a ledger with a gap it always fails
  (`PersistentLocks.OnlyOwnPosition`, `LedgerFiles.NumberIsPositionExactly`).
- Replaced and reaped locks are not marked released, so refreshing one gives two unexpired locks on a node
  (`ClaimLocks.RefreshAfterReplacement`). Refresh does not take the manager's mutex either, so even a lock in the map can be
  refreshed after Acquire or ReapExpired found it expired and before they write the map (`ClaimLocks.RefreshDuringAcquire`,
  `LockRuns.RefreshBeforeDelete`). `LockRuns.ValidExactly` and `ExclusiveExactly` say exactly which runs are free of this.
- `DetectAllCycles` leaves gray marks behind and can report a node that is on no cycle (`CycleDetection.StaleGrayIsReported`);
  such a node always leads to an earlier entry (`SingleEntriesLead`).
- `WouldCreateCycle` answers no for a source that does not exist yet, even if the target already depends on it
  (`CycleDetection.WouldCreateIsRight`).
- `Distance` counts bytes against the empty string and runes otherwise; the triangle inequality fails there
  (`Levenshtein.TriangleExactly`).
- The normaliser moves arguments from behind the double dash before it, where a known flag is read as a flag
  (`ArgNormal.FlagAfterDoubleDash`; the conditions are exact in `NormalizePreservesParse` and `NormalizeIdempotentExactly`).
- escapeLatex turns a backslash into a command followed by escaped braces, because the replacements of braces come later. The text
  prints as it is exactly if it has no backslash (`EscapeLatex.PrintsExactly`).
- The delimiters of the hashed strings do not rule out collisions. Which strings determine their node is said exactly by
  `HashPreimage.DeterminedExactly` for the form with control characters, and by `HashLabels.DeterminedAmongTidyExactly` and
  `LabelledDeterminedExactly` for the form with labels.
- A recorded taint is taken as it stands, and creating a node above existing ones does not recompute them
  (exactly when that leaves a wrong taint: `Taint.EventSyncExactly`, `Taint.LedgerSyncExactly`).

## Model

| member | source | states |
|---|---|---|
| `LedgerProtocol.MutualExclusion` | internal/ledger/lock.go:83-153 | In every interleaving of any number of calls, at most one is between its exclusive create and its own remove of the lock file; and the ownership check of a release never refuses the holder, although all calls of one kind write the same agent ID |
| `LedgerProtocol.MutexStep` | internal/ledger/lock.go:83-153 | Every file operation keeps: whoever is in the critical section created the lock file that is there |
| `LedgerProtocol.DirectoryChangesInCriticalSection` | internal/ledger/lock.go:83-153 | While one call is in the critical section, no step of another changes the lock file or the event files |
| `LedgerProtocol.ShapeStep` | internal/ledger/append.go:75-332 | Every file operation keeps the event numbers as the call in the critical section knows them (all below its number; a batch in progress; a rollback half done) |
| `LedgerProtocol.LedgerStaysContiguous` | internal/ledger/append.go:75-332 | From a ledger 1..n, in every run whose rollbacks succeed, the event numbers are 1..m whenever no rollback is under way |
| `LedgerProtocol.NextAfterContiguous` | internal/ledger/filename.go:54-80 | On event files 1..n the next sequence number is n + 1 |
| `LedgerSerial.EveryEventOnce` | internal/ledger/append.go:75-332 | In every run whose rollbacks succeed: earlier events unchanged; the events of a call that returned a number are at that number, in order; every later event belongs to exactly such a call or to a batch at work |
| `LedgerSerial.NumbersAreDistinct` | internal/ledger/append.go:75-332 | Two calls never own the same number |
| `LedgerReads.ReadsHoldExactly` | internal/ledger/read.go:74-94 | In every run whose rollbacks succeed, all the files a call has read are still in place under their numbers exactly if none of these numbers was removed after the call had read it |
| `LedgerCas.CompareAndSwapExactly` | internal/ledger/append.go:158-236 | In every run whose rollbacks succeed, a compare-and-swap call about to rename has an event its guard accepts on what its caller read, gets the number after those, and finds the ledger to be exactly the files read if and only if none of their numbers was removed since |
| `LedgerCas.CommittedExactly` | internal/ledger/append.go:158-236 | Of every event in the ledger after such a run: who wrote it and that the call was entitled to it; of one committed by compare-and-swap, that its number follows those read, and that the files read are still the ones before it exactly if none was removed since |
| `LedgerCas.GuardsHoldInLedger` | internal/ledger/append.go:158-236 | After any run without a rollback, the guard of every event whose author used compare-and-swap holds of the exact prefix before it; every other new event is free, or was accepted by its check on what its caller had read |
| `LedgerCas.CallsTakeEffectAtomically` | internal/ledger/append.go:75-236 | Append and compare-and-swap change the ledger in the very step that settles their answer, as an atomic operation on the sequence would; no other step changes it; a batch adds its events one at a time |
| `LedgerAnswers.ListingExactly` | internal/ledger/append.go:158-236 | In every run whose rollbacks succeed, when a call under the lock lists the directory: a compare-and-swap is answered with a mismatch exactly if the ledger is not as long as it expects; otherwise, and for the other calls always, it goes on to rename its event under the next number |
| `LedgerAnswers.FailedExactly` | internal/ledger/append.go:75-332 | In every run, a call that has its answer failed exactly if it timed out waiting for the lock, or failed before or at a rename of its own; only a compare-and-swap is ever told of a mismatch |
| `LedgerAnswers.RenamesBalance` | internal/ledger/append.go:242-332 | In every run, failing removals included: a call answered with a number renamed all its events and removed none; one told of a mismatch touched none; one that failed tried to remove as many files as it had renamed |
| `LedgerAnswers.LockFreeExactly` | internal/ledger/lock.go:83-153 | In every run in which no removal of a lock file fails, there is a lock file exactly while some call is in its critical section, so that a waiting call can take the lock exactly if none is |
| `LedgerAnswers.NeverStuck` | internal/ledger/append.go:75-332 | In every run whose rollbacks succeed, a call that has the lock can always take the next step towards giving it back |
| `LedgerAnswers.AnyStepCanFail` | internal/ledger/append.go:75-332 | The failures that the runs include: a call can fail waiting for the lock, writing it, before and at every rename, at every removal and in giving the lock back |
| `LedgerCas.LedgerStep` | internal/ledger/append.go:75-236 | Without removals a step leaves the sequence of events alone or appends the pending event at its end |
| `LedgerCas.CasStep` | internal/ledger/append.go:158-236 | The invariant behind it, kept by every step that removes nothing: mutual exclusion, numbers without gaps, and of every call that it was entitled to its event and, once past its comparison, expects the number that comes next |
| `LedgerRollback.RollbackDefeatsCompareAndSwap` | internal/ledger/append.go:242-332 | A run with a rollback in which a call that read one event is about to commit, at the number it expects, on a ledger with another event in that place |
| `LedgerRollback.BatchRollsBack` | internal/ledger/append.go:316-329 | In the course of it: a reader, which takes no lock, reads an event of a batch and prepares its call; the batch is rolled back; another call takes the number |
| `Workflow.ReleaseAppliesExactly` | internal/state/apply.go:132-147 | For every ledger that loads: with a release appended it loads exactly if the released nodes are distinct and all claimed |
| `Workflow.GuardedLedgerReplays` | internal/state/apply.go:94-147 | A ledger each of whose new events satisfied its guard, or fits, on its exact prefix can be replayed, as to the workflow states of nodes |
| `Workflow.LedgerStaysReadable` | internal/service/proof.go:437-577 | In every interleaving of ClaimNode, RefreshClaim and ReleaseNode with appends that leave the workflow alone, and without a rollback, a ledger whose workflow part could be loaded still can |
| `Workflow.ReadableExactly` | cmd/af/reap.go:104-154 | With reapers, which append a plain release of nodes they saw claimed: it can exactly if every release they appended finds all its nodes claimed in the ledger before it |
| `Workflow.NoDoubleClaim` | internal/service/proof.go:437-485 | In every such run no node is claimed twice without an event in between that frees it |
| `Workflow.ClaimLasts` | internal/state/apply.go:94-147 | In a ledger that loads, a claim lasts, for the owner that made it and through refreshes, and excludes another, until an event frees the node |
| `Workflow.ClaimedExactly` | internal/state/apply.go:86-147 | In every ledger that loads a node exists exactly if it was created, and is claimed by an owner exactly if a claim by that owner is followed by nothing that frees the node |
| `Workflow.ClaimAppliesExactly` | internal/state/apply.go:94-130 | A claim appended to a ledger that loads leaves one that loads exactly if its nodes are distinct, exist and are free; a refresh exactly if a claim by that owner stands, and then it changes nothing |
| `Workflow.ServiceExactly` | internal/service/proof.go:437-577 | On a ledger that loads: ClaimNode submits exactly if owner and timeout are given, the node was created and no claim on it stands; RefreshClaim and ReleaseNode exactly for the owner whose claim stands |
| `Workflow.RefusalsExactly` | internal/service/proof.go:437-577 | And for which reason they are refused: no such node, not available, not claimed, or claimed by another owner |
| `Workflow.NeutralExactly` | internal/state/apply.go:86-147 | The events that leave every ledger that loads one that loads are those that leave the workflow alone, node creation included, and claims and releases of no nodes |
| `Workflow.GuardExactly` | internal/service/proof.go:437-577 | The guard of the protocol model accepts exactly the claims, refreshes and releases that some call of these three submits |
| `Workflow.UnreadableForever` | internal/state/replay.go:26-80 | A ledger that cannot be loaded cannot be repaired by appending, and no guard accepts it again |
| `Workflow.UnguardedReleaseBreaksLedger` | cmd/af/reap.go:104-154 | A run in which it cannot: two reapers read the same ledger, both append a release of the node claimed there |
| `Filename.FilenameRoundTrip` | internal/ledger/filename.go:16-49 | ParseFilename undoes GenerateFilename for every 64-bit number that is not negative, of more than six digits too, and refuses the name of a negative one |
| `Filename.FilenamesDistinct` | internal/ledger/filename.go:16-18 | Different numbers have different names |
| `Filename.GeneratedExactly` | internal/ledger/filename.go:16-18 | The name for n is the only text of at least six digits with that value, without a leading zero if there are more, followed by .json |
| `Filename.ParsedExactly` | internal/ledger/filename.go:22-49 | A name is taken for event n exactly if it is digits with that value, within 64 bits, perhaps behind a plus sign, or behind a minus sign for zero, followed by .json |
| `Filename.OtherFilesIgnored` | internal/ledger/filename.go:22-49 | Temporary and lock files are never taken for events |
| `LedgerFiles.LatestIsNextSequence` | internal/ledger/filename.go:54-80 | The loop over directory entries finds the number that the protocol model calls the next sequence number |
| `LedgerFiles.HoldsUnique` | internal/ledger/read.go:74-94 | A directory holds at most one ledger |
| `LedgerFiles.HoldsWithTemp` | internal/ledger/append.go:75-141 | A temporary file does not change which ledger a directory holds |
| `LedgerFiles.HoldsAfterAppend` | internal/ledger/append.go:75-141 | Adding the file of the next number to a directory that holds the ledger s gives one that holds s followed by the event |
| `LedgerFiles.HoldsAfterBatch` | internal/ledger/append.go:242-332 | The same for a batch under consecutive numbers |
| `LedgerFiles.NoGapsExactly` | internal/ledger/read.go:135-154 | The numbers listed are consecutive from 1 exactly if they are 1..their count |
| `LedgerFiles.HoldsListing` | internal/ledger/read.go:157-188 | For a directory that holds a ledger of n events the listing is 1..n |
| `LedgerFiles.NumberIsPositionExactly` | internal/ledger/read.go:135-154 | For numbers listed in ascending order, the next number is the position of the next event exactly if there are no gaps |
| `LedgerDirectory.Directory.NextSequence` | internal/ledger/filename.go:54-80 | One more than the greatest event number in the directory, 1 for none; one more than the number of events if the directory holds a ledger |
| `LedgerDirectory.Directory.Append` | internal/ledger/append.go:75-141 | Under the lock: on success the event is under the next number and nothing else changed; on failure nothing changed but a temporary file that could not be removed. A directory that held a ledger holds it with the event appended, or as it was |
| `LedgerDirectory.Directory.AppendIfSequence` | internal/ledger/append.go:158-236 | Under the lock: a mismatch exactly reports another latest number and changes nothing; success appends at expected + 1; failure as for Append. On a directory that holds a ledger: a mismatch exactly if its length is not the expected one, and the ledger is extended or as it was |
| `LedgerDirectory.Directory.CleanupTempFiles` | internal/ledger/append.go:36-45 | Removes exactly the listed files that can be removed |
| `LedgerDirectory.Directory.RollBack` | internal/ledger/append.go:322-324 | The rollback loop removes exactly the renamed files that can be removed |
| `LedgerDirectory.Directory.RenameAll` | internal/ledger/append.go:316-329 | All events under their final names, or the directory as before apart from files that could not be removed |
| `LedgerDirectory.Directory.AppendBatch` | internal/ledger/append.go:242-332 | Success puts all events under consecutive numbers; a failure at any temporary file or rename leaves the former directory apart from files whose removal failed. A directory that held a ledger holds it with the events appended, or, if all removals succeed, as it was |
| `LedgerDirectory.Directory.CreateTemps` | internal/ledger/append.go:267-312 | All temporary files with their events, or the directory as before apart from files that could not be removed |
| `LedgerDirectory.Directory.Abandon` | internal/ledger/append.go:320-328 | A failed rename: the renamed files and the temporary files left are removed, as far as they can be |
| `LedgerDirectory.Directory.ListEventSequences` | internal/ledger/read.go:157-188 | Exactly the numbers of the event files, ascending |
| `LedgerDirectory.Directory.Count` | internal/ledger/read.go:124-130 | The number of event files; the length of the ledger if the directory holds one |
| `LedgerDirectory.Directory.HasGaps` | internal/ledger/read.go:135-154 | False exactly if the numbers are 1..count; so for every directory that holds a ledger |
| `LedgerDirectory.Directory.ReadAll` | internal/ledger/read.go:74-94 | Reads back exactly the ledger that the directory holds |
| `GoText.FirstRuneExactly` | internal/fuzzy/levenshtein.go:31-32 | The first rune of a text is the value whose UTF-8 encoding it begins with; if there is none, U+FFFD for one byte |
| `GoText.DecodeEncoded` | internal/fuzzy/levenshtein.go:31-32 | Decoding undoes encoding, for every sequence of values that UTF-8 encodes |
| `GoText.EncodeDecoded` | internal/fuzzy/levenshtein.go:31-32 | Encoding undoes decoding of well-formed text |
| `GoText.RunesInjective` | internal/fuzzy/levenshtein.go:31-32 | Valid UTF-8 text is determined by its runes |
| `Levenshtein.Distance` | internal/fuzzy/levenshtein.go:18-82 | The two-row table with swapped operands computes the recursive distance, with the byte-length answers for empty strings |
| `Levenshtein.FillTable` | internal/fuzzy/levenshtein.go:45-82 | The two arrays, filled row by row and exchanged, hold the table of the recurrence |
| `Levenshtein.DistanceIsLeastEdits` | internal/fuzzy/levenshtein.go:18-82 | For non-empty strings the distance is the least number of insertions, deletions and substitutions of runes leading from one to the other |
| `Levenshtein.LevIsLowerBound` | internal/fuzzy/levenshtein.go:18-82 | No chain of edits is shorter than the recursive distance |
| `Levenshtein.LevIsAttained` | internal/fuzzy/levenshtein.go:18-82 | Some chain of edits has that length |
| `Levenshtein.DistanceLaws` | internal/fuzzy/levenshtein.go:18-82 | Symmetric, at most the longer length, zero exactly on equal rune sequences |
| `Levenshtein.TriangleNonEmpty` | internal/fuzzy/levenshtein.go:18-82 | The triangle inequality for non-empty strings |
| `Levenshtein.TriangleExactly` | internal/fuzzy/levenshtein.go:18-28 | When the triangle inequality holds through every middle string: exactly when neither end is empty against a text of too many bytes per rune |
| `FuzzyMatch.Match` | internal/fuzzy/match.go:27-147 | The loops and the sort compute the result that the lemmas here and in FuzzyAnswers are about |
| `FuzzyMatch.OrderIsTotal` | internal/fuzzy/match.go:48-61 | The comparison used for sorting is a total order |
| `FuzzyMatch.MatchIgnoresOrder` | internal/fuzzy/match.go:27-147 | The whole result depends only on the multiset of candidates |
| `FuzzyMatch.BestIsNearest` | internal/fuzzy/match.go:48-64 | The best candidate is no farther than any other of the same standing as to the prefix rule, and has the prefix if any candidate has it |
| `FuzzyMatch.SimilarityBounds` | internal/fuzzy/match.go:66-71 | The similarity lies in [0,1] and is 1 exactly for the same runes |
| `FuzzyMatch.ExactInputFound` | internal/fuzzy/match.go:27-147 | A non-empty input among the candidates is returned at distance 0, for valid text as itself |
| `FuzzyAnswers.Answer` | internal/fuzzy/match.go:63-147 | The whole answer in terms of the best candidate: a match exactly if it starts with an input of up to three bytes or has similarity 0.3 at least; corrected exactly if its similarity reaches the threshold, or it starts so and the threshold is at most one half, and not two suggestions start so |
| `FuzzyAnswers.BestIsFirst` | internal/fuzzy/match.go:48-64 | The best candidate is the one that comes before all others: starting with a short input, then nearer, then first in the order of texts |
| `FuzzyAnswers.CorrectedExactly` | internal/fuzzy/match.go:66-79 | For more than three bytes: corrected exactly if there is a match and the distance is at most (1 - threshold) times the longer length |
| `FuzzyAnswers.ExactInputCorrected` | internal/fuzzy/match.go:66-79 | An input of more than three bytes that is itself a candidate is corrected at every threshold up to 1, at distance 0 |
| `FuzzyAnswers.SuggestionsExactly` | internal/fuzzy/match.go:95-122 | With a match, the suggestions are exactly the candidates at most three bytes more than the input away and similar enough, each as often as given, in the order of the ranking |
| `FuzzyAnswers.NothingToMatch` | internal/fuzzy/match.go:28-37 | No input or no candidates: no match |
| `CycleSearch.DetectFromExact` | internal/cycle/cycle.go:70-145 | The search reports a cycle exactly if one can be reached from the start, and what it reports is a simple cycle that can be reached |
| `CycleSearch.DfsReports` | internal/cycle/cycle.go:93-145 | Whatever the colours left by earlier searches, a reported path is a simple cycle or a single node; it is a cycle if only the stack is gray |
| `CycleSearch.DfsRanks` | internal/cycle/cycle.go:93-145 | After every search, whether it reports or not, the black nodes are ranked so that dependencies descend, but for those into nodes passed over |
| `CycleSearch.StartReportsExactly` | internal/cycle/cycle.go:197-254 | A search reports exactly if, past none of the nodes on paths reported before, a node left gray or a cycle can be reached |
| `CycleSearch.DfsLeads` | internal/cycle/cycle.go:93-145 | After a search that reports a path, every node it has newly left gray leads to the first node of that path, and so does the start; the path is a single node exactly if that was gray before and not on the search's own path |
| `CycleDetection.Search.DetectCycleDFS` | internal/cycle/cycle.go:93-254 | The recursive search over the shared colour map computes exactly what the functional search does |
| `CycleDetection.DetectCycleFrom` | internal/cycle/cycle.go:70-89 | Yes exactly if a cycle can be reached; the path is a simple cycle |
| `CycleDetection.Search.NodeDetectCycleDFS` | internal/node/cycle.go:60-113 | The same verdict, colours and path, with the entry node once more in front |
| `CycleDetection.DetectCycle` | internal/node/cycle.go:34-51 | The same verdict as DetectCycleFrom on the same graph, and the same path with the entry node twice in front |
| `CycleDetection.DetectAllCycles` | internal/cycle/cycle.go:153-193 | Computes the list that the following lemmas are about; from a node a cycle can be reached exactly if the first node of an entry can |
| `CycleDetection.AllCyclesExact` | internal/cycle/cycle.go:153-254 | The list is empty exactly if the whole graph is acyclic, and its first entry is a simple cycle |
| `CycleDetection.EntriesCoverCycles` | internal/cycle/cycle.go:153-254 | Nothing is missed: for every graph and order of starts, a cycle can be reached from a node exactly if the first node of some entry can |
| `CycleDetection.AllCyclesEntries` | internal/cycle/cycle.go:197-254 | Every entry is a simple cycle or has a single node |
| `CycleDetection.SingleEntriesLead` | internal/cycle/cycle.go:153-254 | From the first node of every entry a cycle can be reached, and an entry of a single node leads to the first node of an earlier entry |
| `CycleDetection.GrayStartIsReported` | internal/cycle/cycle.go:163-190 | A start that an earlier search left gray, and that is on no path reported, is reported alone |
| `CycleDetection.StaleGrayIsReported` | internal/cycle/cycle.go:153-254 | Gray marks left behind: a graph on which the second entry is a node that is on no closed walk |
| `CycleDetection.WouldCreateCycle` | internal/cycle/cycle.go:265-321 | On an acyclic graph: yes exactly if the two nodes are equal, or the source exists and the target leads back to it; the path is a simple cycle of the enlarged graph |
| `CycleDetection.WouldCreateExactly` | internal/cycle/cycle.go:265-289 | That equivalence |
| `CycleDetection.NewCycleExactly` | internal/cycle/cycle.go:299-321 | Adding a dependency to an acyclic graph closes a cycle exactly if its target leads back to its source |
| `CycleDetection.WouldCreateIsRight` | internal/cycle/cycle.go:265-289 | On an acyclic graph the answer is right exactly unless the source does not exist yet and the target already leads to it |
| `CycleDetection.GuardedGraphStaysAcyclic` | internal/cycle/cycle.go:256-289 | Dependencies between existing nodes, each added only after the answer no: the graph stays acyclic for ever |
| `Blocking.ComputeBlockedSet` | internal/node/blocking.go:67-121 | Exactly the nodes with a dependency path, possibly empty, to a node that requested a definition still pending, whatever the iteration order and on cyclic graphs too |
| `Blocking.LeastClosedSet` | internal/node/blocking.go:59-66 | These nodes are contained in every set that contains the requesters and every node depending on a member |
| `Blocking.BuildDependents` | internal/node/blocking.go:93-98 | The reversed map lists exactly the turned-round dependencies |
| `Blocking.Expand` | internal/node/blocking.go:107-118 | One turn of the search keeps the frontier invariant and makes progress |
| `PersistentLocks.FoldExactly` | internal/lock/persistent.go:339-376 | The fold over lock events holds a node for an owner exactly if the last lock event of the node is an acquisition by that owner |
| `PersistentLocks.PersistentManager.ReplayLedger` | internal/lock/persistent.go:198-283 | Replay succeeds exactly if the ledger can be read and nothing that may be a lock event is corrupt; memory is then the fold |
| `PersistentLocks.PersistentManager.VerifyLockHolder` | internal/lock/persistent.go:386-460 | Succeeds exactly if the read does and the last lock event of the node is an acquisition by this owner at this position |
| `PersistentLocks.LaterAcquisitionWins` | internal/lock/persistent.go:386-460 | Of two acquisitions both in the ledger when it is read, the earlier fails and the later succeeds exactly if no lock event of the node follows |
| `PersistentLocks.OneHolder` | internal/lock/persistent.go:386-460 | On one ledger at most one acquisition of a node can be verified |
| `PersistentLocks.OnlyOwnPosition` | internal/lock/persistent.go:386-460 | An acquisition written at the end is verified under a number exactly if that is its position, so never on a ledger with a gap |
| `PersistentLocks.PersistentManager.Acquire` | internal/lock/persistent.go:464-501 | The outcome in every case of request, memory, append, read and foreign events, refused to everybody while memory shows the node and for five seconds after its expiry; the new memory and ledger; and, for a sole writer, that memory still agrees with the fold exactly unless the event was written but the verification read failed for an owner that memory does not already show |
| `PersistentLocks.LockedUntil` | internal/lock/persistent.go:476-482 | A valid request for a node is refused as already locked exactly if memory shows the node and the time is at most five seconds after the expiry |
| `PersistentLocks.PersistentManager.Release` | internal/lock/persistent.go:505-533 | Succeeds exactly for the owner in memory when the event is written; agreement is kept, failed append included |
| `PersistentLocks.PersistentManager.ReapExpired` | internal/lock/persistent.go:572-594 | Removes exactly the locks more than five seconds past their expiry whose event is written, each once, in some order; memory and ledger after it; agreement is kept |
| `ManagerRuns.ClaimIsRun` | internal/lock/persistent.go:464-501 | What PersistentManager.Acquire does to memory and ledger, in every case, is what its steps do as a run of the transition system, with the events of others in between |
| `ManagerRuns.ReapIsRun` | internal/lock/persistent.go:572-594 | So for ReapExpired, in whatever order it meets the nodes |
| `ManagerRuns.OthersAreSteps` | internal/lock/persistent.go:103-119 | Release, Refresh and the replay of a new manager are single steps, enabled exactly when they succeed, with what they do to memory and ledger |
| `ManagerRuns.InStepExactly` | internal/lock/persistent.go:464-594 | One step of a sole writer, restarts included: memory and ledger still name the same owners, but for an acquisition awaiting verification, exactly if the ledger could be read or memory named that owner already; a verification that can read succeeds; a restart finds the same owners |
| `ManagerRuns.InStepRunExactly` | internal/lock/persistent.go:464-594 | So at every point of every run of a sole writer: agreement throughout exactly if every read that matters succeeds, and then no verification that reads is ever refuted |
| `ManagerRuns.BackedStepExactly` | internal/lock/persistent.go:464-594 | Any number of managers, one step: whatever a manager reports as locked, the ledger still says so exactly if the step takes no node from a manager that has it locked, and refreshes no lock the ledger no longer shows |
| `ManagerRuns.BackedExactly` | internal/lock/persistent.go:464-594 | So at every point of every run; and then no two managers ever report different owners. The verification adds no condition |
| `ManagerRuns.OneOwnerStepExactly` | internal/lock/persistent.go:464-594 | One step: no two managers report different owners exactly if no lock is contested when it is verified, refreshed or replayed |
| `ManagerRuns.OneOwnerExactly` | internal/lock/persistent.go:77-79 | So at every point of every run: exactly when the promise of correctness across processes holds |
| `ManagerRuns.UndisturbedClaim` | internal/lock/persistent.go:464-501 | In every state a claim that nothing interferes with is granted exactly if the own memory shows the node free, whatever the ledger shows; and it leaves one owner per node exactly if no other manager has the node locked for somebody else |
| `PersistentLocks.BothGranted` | internal/lock/persistent.go:464-501 | Two managers on one ledger, both granted the same node for different owners: both memories show it unexpired, and the ledger has both acquisitions |
| `LockRuns.ValidStepExactly` | internal/lock/manager.go:27-131 | Where only locks in the map are unexpired, a step leaves it so exactly if it refreshes a lock in the map, or writes over or deletes a lock that is expired at that moment |
| `LockRuns.ValidExactly` | internal/lock/manager.go:27-131 | In every run, with refreshes of any lock ever returned at any moment, between check and write too: only locks in the map are ever unexpired exactly if every step is of that kind; and then at most one lock per node is ever unexpired |
| `LockRuns.ExclusiveStepExactly` | internal/lock/manager.go:27-131 | Where at most one lock per node is unexpired, a step leaves it so exactly if no other lock of the node is unexpired when one is refreshed or installed |
| `LockRuns.ExclusiveExactly` | internal/lock/manager.go:27-131 | So at every point of every run |
| `LockRuns.RefreshBeforeInstall` | internal/lock/manager.go:39-48 | A run in which only locks in the map are refreshed and yet two locks of a node are unexpired: the refresh falls between check and write of Acquire |
| `LockRuns.RefreshBeforeDelete` | internal/lock/manager.go:123-128 | The same for ReapExpired: the lock refreshed is deleted and the node is free for another |
| `ClaimLocks.Manager.Acquire` | internal/lock/manager.go:27-49 | Takes the steps of a run: one judging of the lock in the map, then, if expired, the refreshes that holders make meanwhile and the installation of the new lock; if not, nothing changes |
| `ClaimLocks.Manager.RefreshIssued` | internal/lock/lock.go:132-144 | A refresh of any lock ever returned, at any moment, is a step of the run; when it is refused and what it changes |
| `ClaimLocks.Manager.Release` | internal/lock/manager.go:55-79 | By the owner only; a step of the run: the lock is released for whoever still has it, and leaves the map |
| `ClaimLocks.Manager.Info` | internal/lock/manager.go:82-99 | An unexpired lock of the node, or nothing; where only locks in the map are unexpired, the one among all ever returned |
| `ClaimLocks.Manager.ReapExpired` | internal/lock/manager.go:117-131 | Takes the steps of a run: judges each lock in the map once, deletes and returns exactly those judged expired, with refreshes in between |
| `ClaimLocks.ClaimLock.IsExpired` | internal/lock/lock.go:99-106 | Released, or more than five seconds past its expiry |
| `LockRuns.ExpiryExactly` | internal/lock/lock.go:99-106 | The same of the values in both transition systems: the two managers have one notion of expiry |
| `ClaimLocks.ClaimLock.Refresh` | internal/lock/lock.go:132-144 | Refused for a timeout that is not positive or a released lock; else extends from now |
| `ClaimLocks.RefreshAfterReplacement` | internal/lock/lock.go:132-144 | Two locks that the manager returned for one node, both unexpired: a lock refreshed after it was replaced |
| `ClaimLocks.RefreshDuringAcquire` | internal/lock/manager.go:39-48 | The same by a refresh while the lock is in the map and another agent is inside Acquire |
| `ExportTree.CompareNodeIDs` | internal/export/export.go:355-389 | -1, 0, 1 exactly for less, equal and greater in the lexicographic order of parts |
| `ExportTree.IdOrder` | internal/export/export.go:355-389 | That order is total |
| `Lexicographic.FirstDifferenceDecides` | internal/export/export.go:355-389 | In this order the first part that differs decides, by its number, and a proper beginning comes first |
| `ExportTree.PreorderMembers` | internal/export/export.go:117-154 | The preorder of the tree below a node contains exactly the nodes connected to it through existing ones |
| `ExportTree.PreorderIncreasing` | internal/export/export.go:157-207 | With sorted child lists the preorder is in increasing order of identifiers |
| `ExportTree.PrintedExactly` | internal/export/export.go:46-207 | What is printed: each node below the root 1 whose ancestors all exist once, no other, in increasing order |
| `ExportTree.ParentClosedPrintsAll` | internal/export/export.go:342-351 | For a set of nodes with a root in which every other node has its parent, the preorder is sortNodesByID |
| `ExportMarkdown.Tree.constructor` | internal/export/export.go:117-150 | Building the tree hangs every node under its parent, once, and nothing else anywhere |
| `ExportMarkdown.Tree.SortTreeChildren` | internal/export/export.go:157-169 | Sorts the child lists of the subtree and no others |
| `ExportMarkdown.Tree.RenderMarkdownNode` | internal/export/export.go:176-207 | Appends the headings of the preorder, each at the level of its depth, at most six |
| `ExportMarkdown.ToMarkdown` | internal/export/export.go:46-69 | For distinct identifiers listed in any order the output is the headings of exactly the printed nodes, each with its own details; the root is of level two, a child one level below its parent down to six |
| `EscapeLatex.Escaped` | internal/export/export.go:307-329 | The ten replacements one after the other compute one substitution of characters |
| `EscapeLatex.SequentialIsSimultaneous` | internal/export/export.go:307-329 | That equation; a backslash becomes a command followed by escaped braces |
| `EscapeLatex.PrefixCode` | internal/export/export.go:309-322 | No character's code begins another's |
| `EscapeLatex.EscapeConcat` | internal/export/export.go:307-329 | Escaping distributes over concatenation |
| `EscapeLatex.EscapeInjective` | internal/export/export.go:307-329 | Different texts stay different |
| `EscapeLatex.RenderEscaped` | internal/export/export.go:306-329 | What LaTeX prints of the escaped text, by the meaning of its commands, is the text with braces behind every backslash |
| `EscapeLatex.PrintsExactly` | internal/export/export.go:306-329 | So the text prints as it is exactly if it has no backslash |
| `EscapeLatex.NothingActiveLeft` | internal/export/export.go:306-329 | In the result there is no tilde or circumflex, and the other five active characters stand behind a backslash |
| `HashPreimage.NodeHashPreimage` | internal/hash/hash.go:19-46 | The builder ends up with type, statement, latex, inference, sorted context and sorted dependencies, in this order, separated by NUL, list elements by the unit separator |
| `HashPreimage.StringOrderExactly` | internal/hash/hash.go:55-70 | The order of the sorting: the first character that differs decides, a proper beginning comes first |
| `HashPreimage.DelimitedIgnoresOrder` | internal/hash/hash.go:11-18 | Permuting the lists never changes the hashed string |
| `HashPreimage.DelimitedInjective` | internal/hash/hash.go:30-46 | For fields without NUL and elements without NUL and unit separator: same string exactly for same fields and same lists up to order, where no element and one empty element count as the same |
| `HashPreimage.DeterminedExactly` | internal/hash/hash.go:30-46 | Among all nodes there are: a string determines its node exactly if no field or element contains NUL and each list has at most one element, which cannot be cut at a unit separator into two in sorted order |
| `HashPreimage.ContentHashPreimage` | internal/node/node.go:152-202 | The builder ends up with the labelled sections joined by bars |
| `HashPreimage.LabelledIgnoresOrder` | internal/node/node.go:148-151 | Permuting the lists never changes the hashed string |
| `HashPreimage.LabelledInjective` | internal/node/node.go:152-202 | For fields without bar and elements without bar and comma: same string exactly for same fields and same lists up to order |
| `HashPreimage.LabelInStatementCollides` | internal/node/node.go:163-171 | Every node whose statement spells out a latex section shares its string with the node that has that latex text |
| `HashLabels.LabelledIsFlat` | internal/node/node.go:152-202 | The labelled string written out: type, statement with latex text, inference with lists, between their labels |
| `HashLabels.LabelledText` | internal/node/node.go:152-202 | The whole labelled string, section by section, with the optional ones only where there is something in them |
| `HashLabels.SameStringExactly` | internal/node/node.go:152-202 | For types, inferences and list elements without bars, and list elements without commas: the same string exactly for the same type, inference and lists up to order, and statement and latex text that look the same together |
| `HashLabels.DeterminedAmongTidyExactly` | internal/node/node.go:152-202 | Among such nodes the string determines its node exactly if there is no latex text and the statement does not spell out one |
| `HashLabels.LabelledDeterminedExactly` | internal/node/node.go:152-202 | Among all nodes exactly if there is no optional section, and no field spells out a label where it could be taken for the real one |
| `ArgParse.ParseArgsWithBoolFlags` | internal/cli/argparse.go:25-111 | The loop returns the positional arguments and the flag map of the items scanned |
| `ArgParse.ExtractExactly` | internal/cli/argparse.go:250-274 | With two dashes: the name is what comes before the first equals sign, the value what comes after |
| `ArgParse.ShortExactly` | internal/cli/argparse.go:216-274 | With one dash too, unless what follows begins like a number: then it is no flag |
| `ArgParse.ValueFollows` | internal/cli/argparse.go:75-105 | A known flag gets the same value from the argument that follows as from behind an equals sign, whatever comes after, unless it takes no value or what follows is a known flag or a double dash |
| `ArgParse.ValueAlone` | internal/cli/argparse.go:75-105 | A known flag in front gets what is behind its equals sign; without one true if it takes no value, and empty if it does but nothing can be its value; what comes after is read as it would be alone, and replaces it |
| `ArgNormal.PlainComesFirst` | internal/cli/argparse.go:46-72 | Arguments in front that are no known flags are positional, in their order |
| `ArgNormal.DashEndsFlags` | internal/cli/argparse.go:46-58 | Behind the first double dash everything is positional, further double dashes left out; what is before it is read as it would be alone |
| `ArgParse.NormalizeArgsWithBoolFlags` | internal/cli/argparse.go:120-212 | The loop returns positionals, then what followed the double dash, then the flags with their values, then a double dash if there was one |
| `ArgNormal.NormalizePreservesParse` | internal/cli/argparse.go:25-212 | Parsing the normalised arguments gives the same positionals and flags exactly if no argument after the first double dash is a known flag |
| `ArgNormal.NormalizeIdempotentExactly` | internal/cli/argparse.go:120-212 | Normalising twice equals normalising once exactly if, after the double dash, no positional argument follows a flag |
| `ArgNormal.NormalizeIdempotent` | internal/cli/argparse.go:120-212 | In particular if no argument after the double dash is a known flag |
| `ArgNormal.NormalizeThrice` | internal/cli/argparse.go:120-212 | Two passes are always enough |
| `ArgNormal.NormalizePermutes` | internal/cli/argparse.go:120-212 | The result permutes the arguments other than double dashes, and ends with one double dash if there was any |
| `ArgNormal.FlagAfterDoubleDash` | internal/cli/argparse.go:202-209 | A command line on which both promises fail |
| `ArgNormal.ScanFlagParts` | internal/cli/argparse.go:172-199 | Flags written out with their values are read back as they were |
| `Taint.SyncExactly` | internal/taint/compute.go:9-45 | The only labelling that obeys the five rules at every node is given by epistemic states alone: unresolved if the node or one above is pending, else self-admitted if admitted, else tainted if one above is admitted, else clean |
| `Taint.ProofState.ComputeTaint` | internal/taint/compute.go:18-45 | The loops over the ancestors compute the rule |
| `Taint.ProofState.GetAncestors` | internal/taint/propagate.go:80-90 | Exactly the existing ancestors |
| `Taint.ProofState.GetAncestorsCached` | internal/taint/propagate.go:100-139 | The same from the cache, which stays right |
| `Taint.ProofState.PropagateTaint` | internal/taint/propagate.go:22-75 | Afterwards every node below the given one obeys the rule on the final taints, no other node was touched, and the nodes returned are those that changed |
| `Taint.ProofState.RecomputeTaintForNode` | internal/state/apply.go:354-390 | Leaves the taints that the rule gives when applied to the node and then downwards, the others as they were |
| `Taint.RecomputeSync` | internal/state/apply.go:354-390 | If only the node and those below it were wrong, all taints are right after that |
| `Taint.ProofState.ApplyEvent` | internal/state/apply.go:86-242 | Fails exactly if the event does not apply, changing nothing; else states and taints are those after the event |
| `Taint.EventSyncExactly` | internal/state/apply.go:86-242 | One event on right taints leaves them right exactly if it does not create a node above one that is not unresolved, and does not record a taint other than the computed one |
| `Taint.RefinementSync` | internal/state/apply.go:433-444 | A refinement request may skip the recomputation |
| `Taint.Load` | internal/state/replay.go:26-80 | Loading succeeds exactly if every event applies, and ends with the states and taints that the events add up to |
| `Taint.MovesExactly` | internal/schema/epistemic.go:107-155 | Which state an existing node can be given by one event: back to refinement exactly from validated, never back to pending, judged exactly if pending or needing refinement |
| `Taint.PathsExactly` | internal/schema/epistemic.go:107-155 | Which states a node of a ledger that loads can come to: admitted, refuted and archived are final; validated and needing refinement lead to each other and to these; pending leads to all |
| `Taint.LedgerSyncExactly` | internal/state/replay.go:26-80 | For every ledger: all taints are right after every event exactly if every event is one that keeps them right |
| `Taint.OrderlyKeepsSync` | internal/state/replay.go:26-80 | So if parents come before children and recorded taints are the computed ones |
| `Sorting.SortedPermutationIsUnique` | internal/export/export.go:342-351 | Under a total order the sorted permutation of a list is unique, so the sorting algorithm does not matter |
| `Sorting.SortEqualIffPermutation` | internal/hash/hash.go:55-70 | Two lists sort to the same list exactly if they are permutations of each other |

## Left out

- cmd/af, internal/render, internal/hooks, internal/patterns, internal/config and internal/fs: command wiring, presentation, calls to shells and the network, record files.
- internal/jobs, internal/lemma, internal/metrics and the limit validators: filters and counts that would only add easy members.
- Liveness of the ledger lock: a crashed holder leaves its lock file and all others time out, so only safety is stated; waiting and polling are one step that may be repeated or give up.
- JSON, SHA-256, random names and the parsing of timestamps: an event is what parsing it yields, a hash is represented by the string hashed, names of temporary files are any new names with their suffix.
- Failures of writing, syncing, closing and setting permissions of a temporary file: one outcome, failure before the rename.
- Directory entries that are directories, and file contents that cannot be read: not part of the model of the ledger directory.
- Listings by readers: a lock-free reader may see any set of names and reads events one by one, which covers more than a file system does.
- LedgerDirectory.Directory.AppendBatch: requires that the new numbers fit 64 bits, because the program does not handle more; it is split into CreateTemps, RenameAll and their clean-up methods.
- LedgerDirectory.Directory.ReadAll: states what is read from a directory that holds a ledger; for other directories only that nothing goes wrong, because which error is reported is presentation.
- Workflow: the service operations other than claiming, refreshing and releasing; bulk refinement appears only as unguarded creation of nodes, and scope events as events that leave the workflow alone. Loading is its workflow part: that events of other kinds may fail to apply is not modelled.
- Workflow.GuardedLedgerReplays: about that part of loading only, because events of other kinds are not modelled.
- Workflow.LedgerStaysReadable: about that part of loading only, because events of other kinds are not modelled.
- PersistentLocks: the registry of managers per path, Info, IsLocked and ListAll, which only read; oversized and malformed events are one kind of corrupt event; a release and a reap are recorded without their owner, which replay ignores.
- PersistentLocks.PersistentManager.Acquire: lock objects are values here, so that Refresh of a lock in the map is a separate method, and refreshing a lock object that has left the map has no effect to model; LockRuns and ClaimLocks model the pointers.
- ManagerRuns: the mutex of a manager keeps its own calls apart, as the modes of its steps say; holders refresh without it. What is compared between managers is what they report, not lock objects in the hands of agents.
- ClaimLocks: ListAll and IsLocked; ClaimLock.Release of internal/lock/release.go and internal/lock/reap.go; the manager's mutex, which keeps the manager's calls apart from each other but not from Refresh; marking a lock released and deleting it are one step, because a refresh in between is refused.
- CycleDetection.DetectAllCycles: which single nodes are reported depends on the order of the starts; no condition on the graph alone is given for it.
- CycleSearch: paths are values; that the program extends one slice in place is not captured.
- Taint: RecomputeAllTaint and the events written by the service; nil nodes; equality of identifiers is equality of their parts.
- ExportTree: identifiers are sequences of numbers; spellings such as 1.01 that differ as text but not as numbers are not distinguished. Nodes are distinct, as in the map the program keeps them in.
- ExportMarkdown: the lines printed below a heading depend on the node alone and are one text; the LaTeX rendering walks the same tree and is not modelled beyond escapeLatex.
- LaTeX itself: what it prints is a small function over command names, escaped characters and groups; that it skips blanks after a command name is left out, because every command here is followed by a brace or a backslash.
- FuzzyMatch: floating-point rounding; similarities and thresholds are real numbers.
- HashPreimage: strings are sequences of characters compared by code, which for the program's bytes is the byte order.
- SuggestFlag and SuggestCommand: fixed thresholds for Match.
