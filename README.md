# Buccaneer gap correction, score lists and fragment joining in Dafny

This project models three pieces of Buccaneer, the protein main-chain
builder, and proves properties of them.

- **The gap corrector.** These are `Ca_correct::score_chain_sequence`,
  `best_rebuild_sequence`, `operator()` and `num_corrected` in
  `buccaneer-correct.cpp`. For each chain the corrector:
  - scans the annotated sequence for runs of insertion markers (`+`), then
    for runs of deletion markers (`-`);
  - computes a window around each run (at most 8 positions beyond it, and at
    least 6 positions from either end of the sequence);
  - masks the residues far from the window by appending `*` to their types;
  - builds a trial chain at every first moved position of the window. An
    insertion run is spliced out. For a deletion run, residues are repeated
    and typed from a guess at the missing sequence, taken from the reference
    sequences;
  - rebuilds eight backbone atoms of each trial with a loop-closure search,
    and keeps the first candidate with the lowest score;
  - accepts the best trial only when it scores strictly below the masked
    chain's score plus 0.1;
  - unmasks by cutting every type to three characters, and counts the
    corrected runs.
- **`Score_list<T>`** (`buccaneer-lib.h`). A bounded list of (score, data)
  pairs in ascending order of score. It keeps the best `max` entries, and a
  new entry goes in front of stored entries with an equal score.
- **The integer logic of `Ca_join`** (`buccaneer-join.cpp`). This covers:
  - the longest-path search `longest_chain` over the fragment join graph;
  - the weighting and flagging of fragments by their distance to the nearest
    UNK residue;
  - the rule for which fragment may follow which;
  - the repeated extraction of longest chains, with pruning of the graph;
  - the numbering of the output residues.

The collaborators whose code is not part of this model are passed in as
parameters:
- the residue-type table;
- the density likelihood of a residue (`llk`, including the frame built by
  `rtop_beta_carbon`);
- the loop-closure search `rebuild8atoms`;
- `chain_sequence` and `chain_tidy`;
- the geometric closeness test between two fragments.

They are fields of `ChainModel.Services`, and a predicate `close` for the join
test.

In the gap corrector, out-of-range indexing is undefined behaviour, and a
`std::string::substr` throws when its start is out of range. The model of the
corrector gives both an explicit `Fault` result and does not exclude them
with preconditions. The join and the score list have preconditions in their
place, each listed under "## Left out".

Two behaviours of the code are easy to misread, and the model follows the
code in both:
- **The annotated sequence is never refreshed.** The comment "and update" at
  `buccaneer-correct.cpp` lines 163 and 245 suggests that the annotated
  sequence is recomputed after every edit. But lines 164 and 246 declare a
  new local `seq0` that shadows the outer one. So both passes over a chain
  scan the string computed once at line 107, and the deletion pass sees
  positions of the chain as it was before the insertion pass.
  `GapDriver.CorrectChain` computes the string once and hands it to both
  passes.
- **Short sequences are never corrected.** With the 6-position end buffer
  (lines 126-127), no annotated sequence of 12 or fewer positions has a
  non-empty window. So a 10-position string such as `AAA+AAA??A` cannot be
  corrected. `GapCorrect.ShortSequenceNeverCorrected` proves this.

Files:
- `common.dfy`: `Option` and `Result`;
- `chain_model.dfy`: residues, chains, oracles and the scorer;
- `rebuild.dfy`: the segment rebuilder;
- `text_search.dfy`: the `std::string` searches;
- `gap_window.dfy`: the window and the masking;
- `gap_trial.dfy`: the trial chains and the fill guess;
- `gap_correct.dfy`: one run, one pass, and the driver with its counter class
  `GapDriver.CaCorrect`;
- `score_list.dfy`: `Score_list`;
- `fragment_graph.dfy`: `longest_chain`;
- `fragment_join.dfy`: the join logic.

## Model

| member | source | states |
|---|---|---|
| ChainModel.Contribution | buccaneer-correct.cpp:14-26 | a residue adds something to the score only when its type index lies in [0, number of targets) and its N, CA and C atoms are all present |
| ChainModel.UnscoredChainScoresZero | buccaneer-correct.cpp:11-29 | a chain none of whose residues contributes scores exactly 0 |
| ChainModel.ScoreAppend | buccaneer-correct.cpp:11-29 | the score is a sum over residues: two stretches laid end to end score the sum of their scores |
| ChainModel.ScoreReplace | buccaneer-correct.cpp:11-29 | replacing one residue changes the score by exactly the difference of the two residues' contributions |
| ChainModel.ScoreChainSequence | buccaneer-correct.cpp:9-30 | the accumulation loop returns the chain score, the sum of the residues' contributions |
| Rebuild.PlacedChangesOnlyEightAtoms | buccaneer-correct.cpp:71-79 | writing a candidate in changes only the C of p-1, the N, CA and C of p and p+1, and the N of p+2. Types, the other residues and the anchor atoms stay as they were, and all 14 looked-up atoms stay present |
| Rebuild.BestRebuildSequence | buccaneer-correct.cpp:34-90 | the rebuild loop returns the sentinel (1e12) when one of the 14 atoms is missing. Otherwise it keeps a running best over the candidates in order, replacing it only on a strictly lower score |
| Rebuild.PickIsEarliestMinimum | buccaneer-correct.cpp:69-86 | the running best is the sentinel exactly when no try scores below 1e12. Otherwise it is a try with the minimum score, and every earlier try scores strictly more |
| Rebuild.BestRebuildIsEarliestMinimum | buccaneer-correct.cpp:53-88 | with all atoms present, the rebuild is the sentinel exactly when no candidate scores below it. Otherwise it is the earliest candidate of minimum score, placed into the chain |
| Rebuild.RebuiltChainShape | buccaneer-correct.cpp:69-86 | a successful rebuild keeps the chain's id, length and residue types, and changes no residue outside p-1 .. p+2 |
| TextSearch.IndexOf | buccaneer-correct.cpp:111-115 | the first position at or after the cursor that holds the marker, or -1 (npos) when there is none |
| TextSearch.IndexNotOf | buccaneer-correct.cpp:116 | the first position at or after the run start that does not hold the marker, or -1 when the run reaches the end |
| TextSearch.Find | buccaneer-correct.cpp:187-188 | the first occurrence of a pattern, or -1 when it does not occur |
| TextSearch.CharAt | buccaneer-correct.cpp:182 | indexing a string gives its character, NUL at the length, and a fault beyond it |
| TextSearch.Substr | buccaneer-correct.cpp:183-184 | substr faults exactly when its start is negative or past the end. Otherwise it gives a prefix of the rest of at most n characters, cut short only by the end of the string |
| GapWindow.ScanBack | buccaneer-correct.cpp:124 | the downward scan stops at the first '?' above the lower limit, and at the limit when there is none |
| GapWindow.ScanFwd | buccaneer-correct.cpp:125 | the upward scan stops at the first '?' up to the upper limit, and one past it when there is none |
| GapWindow.Window | buccaneer-correct.cpp:122-127 | the clamped window [r1, r2) satisfies r1 >= 6 and r2 <= length - 6. It reaches at most 8 positions below the run and at most 9 above it, and holds no '?' between itself and the run |
| GapWindow.FindWindow | buccaneer-correct.cpp:121-127 | the two scanning loops and the clamping compute that window |
| GapWindow.MaskChain | buccaneer-correct.cpp:129-130 | the masking loop appends '*' to the type of exactly the residues r with r < r1-2 or r > r2+2 |
| GapWindow.Prefix3 | buccaneer-correct.cpp:162 | substr(0,3) gives the first min(length, 3) characters of a type |
| GapWindow.UnmaskChain | buccaneer-correct.cpp:161-162 | the unmasking loop cuts every residue type to its first three characters and changes nothing else |
| GapWindow.UnmaskUndoesMask | buccaneer-correct.cpp:161-162 | on a chain of three-letter types, unmasking restores the masked chain exactly |
| GapWindow.MaskedScore | buccaneer-correct.cpp:129-134 | when no marked type is recognised, the masked chain scores exactly what its unmasked stretch r1-2 .. r2+2 scores on its own |
| GapTrial.InsertionTrialShape | buccaneer-correct.cpp:139-145 | an insertion trial has nins fewer residues. Its types are the original types with [ins1, ins2) removed, whatever rl is. Its atoms are those of the chain with the nins residues from rl dropped |
| GapTrial.CopySkipping | buccaneer-correct.cpp:139-140 | the copy loops give the residues before rl followed by those from rl+nins on |
| GapTrial.BuildInsertionTrial | buccaneer-correct.cpp:137-145 | the copy and typing loops build exactly the insertion trial |
| GapTrial.DeletionTrialShape | buccaneer-correct.cpp:216-227 | a deletion trial has ndel more residues. Its types are the original types before del1, then 2*ndel fill types, then the original types from del2 on. Its atoms repeat the ndel residues before rl |
| GapTrial.CopyRepeating | buccaneer-correct.cpp:216-217 | the copy loops give the residues before rl followed by those from rl-ndel on |
| GapTrial.TypeFill | buccaneer-correct.cpp:221-225 | positions del1 .. del2+ndel-1 take the three-letter code of the fill character when the table recognises it, and UNK otherwise |
| GapTrial.BuildDeletionTrial | buccaneer-correct.cpp:214-227 | the copy and typing loops build exactly the deletion trial |
| GapTrial.FlankStart | buccaneer-correct.cpp:181 | the left flank starts just after the nearest '?' below the run, or at 0. Every position in between is matched |
| GapTrial.ScanFlankStart | buccaneer-correct.cpp:181 | the i1 loop computes that start |
| GapTrial.FlankEnd | buccaneer-correct.cpp:182 | the right flank ends just before the next '?', or at len-1. It faults when it reads more than one position past the end of the annotated sequence |
| GapTrial.ScanFlankEnd | buccaneer-correct.cpp:182 | the i2 loop computes that end, with the same fault |
| GapTrial.Between | buccaneer-correct.cpp:191-192 | a matching reference gives the 1 to 4 residues between the first occurrences of the two flanks |
| GapTrial.GuessFill | buccaneer-correct.cpp:185-196 | the reference loop returns the first matching reference's missing residues followed by eight '?' |
| GapTrial.FillIsFirstMatch | buccaneer-correct.cpp:186-196 | the guess comes from the first matching reference, or is empty when none matches. With the padding it has 8 to 12 characters |
| GapCorrect.Advance | buccaneer-correct.cpp:247 | the cursor resumes strictly past the run (ins2+1, del2+ndel+1), so each pass terminates |
| GapCorrect.DeletionFill | buccaneer-correct.cpp:180-196 | a fill guess has at least 8 characters. A deletion run at position 0 always faults, because the left flank then starts at -1 and its substr throws |
| GapCorrect.ComputeDeletionFill | buccaneer-correct.cpp:180-196 | the flank scans, the substrings and the reference search compute that fill |
| GapCorrect.MakeRun | buccaneer-correct.cpp:174-196 | a prepared run keeps its kind and its extent [a, b) |
| GapCorrect.TrialChain | buccaneer-correct.cpp:135-145 | a trial that exists leaves room for the rebuilder (2 <= rl, rl+3 < length). It has nins fewer residues for an insertion run and ndel more for a deletion run |
| GapCorrect.ChooseIsEarliestMinimum | buccaneer-correct.cpp:147-154 | the selection stays at (0, masked chain) exactly when no trial scores below the null score. Otherwise it is the earliest trial of minimum score, and every trial must exist |
| GapCorrect.TryPosition | buccaneer-correct.cpp:136-153 | one position of the loop builds the trial and rebuilds it, or faults where the source would go out of range |
| GapCorrect.SelectBest | buccaneer-correct.cpp:132-154 | the loop over rl in [r1, r2) computes that selection over every position of the window (none when r1 >= r2) |
| GapCorrect.CorrectRun | buccaneer-correct.cpp:120-165 | the loop body computes one run's correction: window, mask, null score, selection, acceptance when the best is below 0, and unmask |
| GapCorrect.RunCorrectedIffBeaten | buccaneer-correct.cpp:134-159 | a run is corrected exactly when some position in the window rebuilds to a score strictly below the masked chain's score plus 0.1 |
| GapCorrect.ShortSequenceNeverCorrected | buccaneer-correct.cpp:126-127 | on an annotated sequence of at most 12 positions the window is empty, and no run is ever corrected |
| GapCorrect.UncorrectedRunUnchanged | buccaneer-correct.cpp:128-162 | an uncorrected run leaves a chain of three-letter types exactly as it was |
| GapCorrect.CorrectedRunShape | buccaneer-correct.cpp:136-159 | a corrected run keeps the chain id. The chain loses nins residues (insertion) or gains ndel residues (deletion) |
| GapCorrect.PrepareRun | buccaneer-correct.cpp:174-196 | preparing a run computes the run of the pass function |
| GapCorrect.CorrectNext | buccaneer-correct.cpp:120-165 | preparing and correcting the run at [a, b) is one step of the pass function |
| GapCorrect.PassIteration | buccaneer-correct.cpp:111-119 | one turn of the pass loop either ends the pass, when a run reaches the end of the sequence, or corrects the run found and resumes strictly past it. The count rises by one exactly when the run was corrected |
| GapCorrect.RunPass | buccaneer-correct.cpp:109-166 | the pass loop computes the pass over all runs of one kind, with the stale annotated sequence and the count of corrected runs |
| GapDriver.PassCountBounded | buccaneer-correct.cpp:111-165 | a pass counts at most one correction per marker position it scans |
| GapDriver.UncorrectedPassUnchanged | buccaneer-correct.cpp:109-166 | a pass that corrects nothing leaves a chain of three-letter types unchanged |
| GapDriver.CorrectChainPasses | buccaneer-correct.cpp:106-248 | one chain gets the insertion pass, then the deletion pass, both driven by the annotated sequence taken once |
| GapDriver.ChainCountBounded | buccaneer-correct.cpp:104-252 | a chain's corrections number at most its '+' and '-' markers |
| GapDriver.UncorrectedChainUnchanged | buccaneer-correct.cpp:104-252 | a chain of three-letter types on which nothing is corrected comes back unchanged |
| GapDriver.CorrectAllChainwise | buccaneer-correct.cpp:104-252 | chains are corrected independently. The whole succeeds exactly when every chain does, the k-th output is the k-th chain corrected on its own, and the count is the sum of the chains' counts |
| GapDriver.CaCorrect.Apply | buccaneer-correct.cpp:93-255 | after chain_tidy, each chain is corrected in place. The result faults exactly when some chain's correction faults. Otherwise it holds the corrected chains, and numCor is the total count of corrected runs |
| GapDriver.CaCorrect.NumCorrected | buccaneer-correct.cpp:258-261 | reports the count stored by the last call |
| ScoreList.AddableTo | buccaneer-lib.h:27-28 | a score enters when there is room; on a full sorted list exactly when it beats some stored score, that is, the last (worst) one |
| ScoreList.Slot | buccaneer-lib.h:33 | the insertion slot sits after every strictly smaller score and before every score at least as large |
| ScoreList.ScanDown | buccaneer-lib.h:33 | the backward scan stops at the last entry scoring strictly below the new score, or at -1 |
| ScoreList.ScanDownIsSlot | buccaneer-lib.h:33-34 | the scan stops exactly at that slot |
| ScoreList.AdmittedSorted | buccaneer-lib.h:30-35 | an admitted add keeps the scores in ascending order |
| ScoreList.AdmittedLength | buccaneer-lib.h:32-34 | an admitted add grows the list by one while there is room, and otherwise keeps its length. It never exceeds max |
| ScoreList.AdmittedContents | buccaneer-lib.h:30-35 | as a multiset, an admitted add inserts the new pair. On a full list it also removes the previous last (worst) pair |
| ScoreList.AdmittedPlacesNewFirstAmongEquals | buccaneer-lib.h:33-34 | the new entry lands behind every strictly smaller score and in front of every equal or larger one |
| ScoreList.AddIsAdmitted | buccaneer-lib.h:31-34 | the pop, the scan and the insert of add build exactly the admitted list, which is again sorted and within capacity |
| ScoreList.ScoreList.constructor | buccaneer-lib.h:23 | a new list is empty, sorted and has capacity n |
| ScoreList.ScoreList.Init | buccaneer-lib.h:25 | init empties the list and sets the capacity |
| ScoreList.ScoreList.Addable | buccaneer-lib.h:27-28 | addable always while there is room; on a full list exactly when the score beats the last stored score |
| ScoreList.ScoreList.Add | buccaneer-lib.h:30-36 | add leaves the list unchanged when the score is not addable (no room and not below the last score). Otherwise the list becomes the admitted list, staying sorted and within capacity |
| ScoreList.ScoreList.Del | buccaneer-lib.h:38 | del removes exactly entry i and keeps the others in order |
| ScoreList.ScoreList.Score | buccaneer-lib.h:40 | the score of entry i, which no later entry undercuts |
| ScoreList.ScoreList.Get | buccaneer-lib.h:42 | the data stored with entry i |
| ScoreList.ScoreList.Size | buccaneer-lib.h:44 | the number of entries, never above the capacity |
| FragmentGraph.WalkBack | buccaneer-join.cpp:40-49 | the loop check reports a clean back-pointer path: counts fall strictly, the path never meets the successor, and it ends at a node without a back pointer |
| FragmentGraph.CleanWalkEnds | buccaneer-join.cpp:40-49 | a clean path is a back walk that ends after some k steps, never meets the successor and has strictly falling counts |
| FragmentGraph.WalkClean | buccaneer-join.cpp:40-49 | conversely, a back walk that ends, avoids the successor and has strictly falling counts is clean |
| FragmentGraph.VisitChild | buccaneer-join.cpp:36-54 | one child is updated by the rule: when its count is below the node's count + 1 and the path back from the node is clean, it gets that count, a back pointer to the node, and becomes dirty; otherwise nothing changes |
| FragmentGraph.UpdateSane | buccaneer-join.cpp:38-54 | updating a child keeps the search sane: back pointers follow joins, a node without back pointer has count 0, and a count is at most one more than its back neighbour's |
| FragmentGraph.Relax | buccaneer-join.cpp:35-56 | the child loop applies that rule to the node's children in list order |
| FragmentGraph.RelaxFromFrame | buccaneer-join.cpp:35-56 | processing a node's children never lowers a count and keeps dirty nodes dirty. A count or back pointer changes only for a child of the node, the new back pointer is that node, and a child whose count changed is dirty |
| FragmentGraph.ProcessLowest | buccaneer-join.cpp:30-56 | one round takes the lowest dirty node off the dirty set and relaxes its children |
| FragmentGraph.LoopStarts | buccaneer-join.cpp:24-26 | the dirty set starts as exactly the nodes of count 0 |
| FragmentGraph.Rounds | buccaneer-join.cpp:29-57 | the propagation loop runs rounds until no node is dirty or the round bound is reached |
| FragmentGraph.Propagation | buccaneer-join.cpp:21-57 | with every count 0, no back pointer and every node dirty, the loop produces the counts and back pointers of the search |
| FragmentGraph.PropagateMonotone | buccaneer-join.cpp:29-57 | counts never fall during the propagation |
| FragmentGraph.RelaxedSane | buccaneer-join.cpp:21-57 | after the propagation every back pointer is -1 or names a node with a join to this one, a node without back pointer has count 0, and a count is at most one more than its back neighbour's |
| FragmentGraph.RepointAcyclic | buccaneer-join.cpp:42-53 | with acyclic back pointers, re-pointing a child at a node whose back path is clean (so it avoids the child) keeps them acyclic |
| FragmentGraph.RelaxedAcyclic | buccaneer-join.cpp:29-57 | without self-joins, the back pointers after the propagation have no cycle: every back walk ends |
| FragmentGraph.FollowedCount | buccaneer-join.cpp:51-52 | a chain read off the back pointers from a node without one is longer than its last node's count |
| FragmentGraph.FirstArgMax | buccaneer-join.cpp:59-62 | the lowest-index node of highest count |
| FragmentGraph.AcyclicNoReturn | buccaneer-join.cpp:67-72 | with acyclic back pointers, a chain that follows them never returns to its first node |
| FragmentGraph.TraceBack | buccaneer-join.cpp:64-75 | the back-trace is non-empty, ends at the chosen node, is a path of the join graph in forward order, and each node's back pointer is its predecessor in the chain. It starts at a node without back pointer or at a node already on it, and with acyclic back pointers always at one without |
| FragmentGraph.LongestChain | buccaneer-join.cpp:19-76 | the counts are those of the search. The chain is the one `LongestChainOf` describes: it ends at the lowest-index node of highest count, is a path of the graph, follows the back pointers, and starts at a node without back pointer or at one already on it. Without self-joins it starts at a node without back pointer and has more nodes than its last node's count |
| FragmentGraph.FollowedUnique | buccaneer-join.cpp:64-75 | two chains read back along the same pointers from the same node to nodes without back pointer are equal |
| FragmentGraph.LongestChainOfUnique | buccaneer-join.cpp:19-76 | without self-joins, the graph and the number of rounds determine the chain longest_chain returns |
| FragmentJoin.PrevUnknown | buccaneer-join.cpp:127-128 | the nearest UNK residue before res, or -1 |
| FragmentJoin.NextUnknown | buccaneer-join.cpp:129-130 | the nearest UNK residue after res, or the chain length |
| FragmentJoin.UnknownDistance | buccaneer-join.cpp:131 | d is at least 1, no UNK lies closer than d on either side, and an UNK or a chain end lies at distance d |
| FragmentJoin.NearestUnknown | buccaneer-join.cpp:126-130 | the two scans find those nearest UNK residues |
| FragmentJoin.Weigh | buccaneer-join.cpp:122-134 | a fragment on an UNK residue gets flag 1 and score 1. Otherwise it gets score 1 + 0.1 d, and flag 2 exactly when d > 15, else 1 |
| FragmentJoin.Successors | buccaneer-join.cpp:181-197 | the fragments that may follow f1, in increasing order: live, not f1, close, and the next fragment unless both are flag 1 |
| FragmentJoin.NoSuccessors | buccaneer-join.cpp:177 | a flag-0 fragment has no joins |
| FragmentJoin.JoinGraph | buccaneer-join.cpp:174-200 | the join lists of all fragments stay inside the graph and no fragment joins itself |
| FragmentJoin.BuildJoins | buccaneer-join.cpp:174-200 | the loops build exactly `JoinGraph`. The join lists have no self-joins and none touching a flag-0 fragment. A join involving a flag other than 1 links a fragment only to the next one |
| FragmentJoin.LiveMembers | buccaneer-join.cpp:227-230 | a pruned join list holds exactly the links to live fragments |
| FragmentJoin.FlagUsed | buccaneer-join.cpp:220-221 | the fragments of the extracted chain get flag 0, and the others keep theirs |
| FragmentJoin.DropUsedLinks | buccaneer-join.cpp:228-230 | erasing from the back removes exactly the links to flag-0 fragments, keeping the order of the rest |
| FragmentJoin.ClearUsed | buccaneer-join.cpp:223-225 | the join lists of flag-0 fragments are emptied, and the others are kept |
| FragmentJoin.DropLinksToUsed | buccaneer-join.cpp:227-230 | every join list loses exactly its links to flag-0 fragments |
| FragmentJoin.Retire | buccaneer-join.cpp:219-230 | after an extraction, the chain's fragments have flag 0 and no joins, and every other list keeps only its links to live fragments |
| FragmentJoin.Retired | buccaneer-join.cpp:219-230 | the flags and join lists after retiring one chain, with every join list still inside the graph |
| FragmentJoin.Pruned | buccaneer-join.cpp:215-232 | the flags and join lists after retiring a sequence of chains in order, still inside the graph |
| FragmentJoin.PrunedFlags | buccaneer-join.cpp:219-221 | after pruning, exactly the fragments of the retired chains have flag 0, and every other fragment keeps its flag |
| FragmentJoin.PrunedSubGraph | buccaneer-join.cpp:223-230 | pruning only removes joins, so it creates no self-join |
| FragmentJoin.PrunedChainUnique | buccaneer-join.cpp:213-232 | on a graph without self-joins, pruned by any chains, longest_chain has only one possible result |
| FragmentJoin.PrunedWellFormed | buccaneer-join.cpp:223-230 | pruning keeps every link inside the graph |
| FragmentJoin.RetireShrinks | buccaneer-join.cpp:216-232 | retiring a chain strictly shrinks the set of fragments with a join, so the extraction loop terminates |
| FragmentJoin.PathAvoidsUsed | buccaneer-join.cpp:215-232 | a fragment on a path of two or more fragments still has a join, so it was not used before |
| FragmentJoin.ExtractStep | buccaneer-join.cpp:216-232 | one extraction keeps the loop invariant. The chain is a path of the original graph, all extracted fragments are used up, the chains stay disjoint, and the graph only loses joins |
| FragmentJoin.ExtractRecord | buccaneer-join.cpp:215-232 | one more extraction extends the record: the new state is the pruning by all chains so far, and each chain was the longest chain of the graph pruned by the chains before it |
| FragmentJoin.NextChain | buccaneer-join.cpp:215-232 | the chain found is a path of the current graph and is the result of longest_chain on it |
| FragmentJoin.ExtractOne | buccaneer-join.cpp:217-232 | one round of the loop: the chain is retired, the state is the pruning by all chains so far, and the next chain is the longest chain of what is left |
| FragmentJoin.ExtractChains | buccaneer-join.cpp:212-234 | chain k is the result of longest_chain on the join graph pruned by chains 0..k-1, and the loop stops at the first such result of at most 5 fragments. Every kept chain has more than 5 fragments and is a path of the original graph. Chains are pairwise disjoint, their fragments end with flag 0 and no joins, every other fragment keeps its flag, and the final flags and joins are the pruning by all chains |
| FragmentJoin.Sources | buccaneer-join.cpp:271-280 | output residue f is averaged from 1 to 3 fragment slots: slot 1-r of fragment f+r for r = -1, 0, 1 within the chain |
| FragmentJoin.GatherSources | buccaneer-join.cpp:274-280 | the r loop gathers exactly those slots |
| FragmentJoin.BuildPolymer | buccaneer-join.cpp:265-291 | an extracted chain of n fragments gives n+2 residues, all typed UNK and numbered 1, 2, ... in order |
| FragmentJoin.BuildPolymers | buccaneer-join.cpp:251-293 | one output chain per extracted chain, in order |
| FragmentJoin.JoinFragments | buccaneer-join.cpp:174-293 | chain k is the result of longest_chain on the join graph pruned by chains 0..k-1, and extraction stops at the first such result of at most 5 fragments. The extracted chains are disjoint and have more than 5 fragments each, and each fragment of a chain may follow the one before it (live, distinct, close, and the next fragment unless both are flag 1). Each output chain has two residues more (so at least 8), typed UNK and numbered from 1 |

## Left out

- Geometry and density. The model leaves out:
  - the likelihood function and its sampled maps (`LLK_map_target` and
    `Sampled` in `buccaneer-lib.h`);
  - the beta-carbon frame;
  - the loop-closure search;
  - `chain_sequence`, `chain_tidy`, `residue_index` and `residue_code_3`.

  These are functions supplied by the caller, because their code is not part
  of this model. For the same reason, the closeness test of two fragments
  (symmetry copies and squared distances, `buccaneer-join.cpp` 184-191) is a
  predicate supplied by the caller.
- In `buccaneer-join.cpp`, the model leaves out the floating-point fragment
  merging (142-172), the coordinate averaging (271-281), the peptide-bond
  rebuild (295-328), `globularise` and `copy_residue_types` (331-334), and the
  map search in `Ca_join::operator()` (342-369). Only which fragment slots an
  output atom averages is modelled (`FragmentJoin.Sources`).
- Scores are `real`, so the model has no floating-point rounding. Integer
  arithmetic is unbounded. The chains are far too short for either to matter
  to the index arithmetic.
- Residues carry only their type and their N, CA and C atoms, the only atoms
  the corrector reads or writes. Other atoms, occupancies and sequence numbers
  of the corrected chains are not modelled.
- `buccaneer-correct.h`, `buccaneer-known.h` and `buccaneer-join.h` hold
  declarations only and are not part of this model. The constructor of the
  corrector (sampling granularity) is not modelled.
- FragmentGraph.LongestChain: the propagation loop runs at most `fuel`
  rounds, because its termination is not evident in the source. The counts
  are those of the search after those rounds, and the chain is read off its
  back pointers from the first node of highest count. That the chain is the
  longest path of the graph is not stated: the search is a heuristic and
  the model describes what it computes. With a self-join the back pointers
  may form a cycle, and then only the weaker start condition is stated.
- FragmentGraph.LongestChain: it requires a non-empty graph. On an empty
  graph the source takes node 0 as the node of highest count
  (`buccaneer-join.cpp` line 59) and reads its back pointer from an empty
  vector (line 67), which is undefined behaviour. `FragmentJoin.NextChain`,
  `ExtractOne` and `ExtractChains` carry the same requirement.
- FragmentJoin.JoinFragments: it requires at least one fragment. With none,
  `fragments.size()-1` wraps around in the merge loop (line 142) and
  `fragments[0]` is read, which is undefined behaviour; the empty graph then
  reaches `longest_chain` as above.
- FragmentJoin.JoinFragments: it inherits the same fuel bound through
  `ExtractChains`: each chain is the result of the fuel-bounded search on
  the pruned graph, so the properties of `LongestChain` listed above, and
  no more, hold of each extracted chain.
- GapDriver.CaCorrect.Apply: when some chain faults (the source's undefined
  behaviour or a `substr` exception), the model says nothing about `numCor`
  or the partly corrected chains.
- GapCorrect.CorrectedRunShape: it assumes that the null score is at most the
  rebuilder's sentinel 1e12. Above it, the source would accept the default
  (empty) chain returned with the sentinel, and the lemma does not describe
  that case.
- ScoreList.ScoreList.constructor: the capacity is a `nat`. The source takes
  an `int`, and for a negative one `list.reserve(max)` (`buccaneer-lib.h`
  line 25) throws `std::length_error`; the model's type excludes that case.
  The null constructor `Score_list()` (line 21), which leaves `max`
  uninitialised, is not modelled.
- ScoreList.ScoreList.Init: the capacity is a `nat`, so the
  `std::length_error` of `list.reserve(max)` for a negative capacity
  (line 25) is not modelled.
- ScoreList.AddableTo: on an empty list of capacity 0 the source reads the
  last element of an empty vector. The model treats that score as not
  addable.
- GapCorrect.UncorrectedRunUnchanged: it covers chains of three-letter types
  only. A shorter type that is masked keeps part of its '*' after unmasking,
  as in the source.
- `ScoreList.ScoreList.Del`, `Score` and `Get` require an index inside the
  list, as the source's unchecked vector access does.
