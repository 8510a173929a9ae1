# NGramMatcher in Dafny

A model of `NGramMatcher` from the `ngrammatcher` package: a trie keyed by
tokens, holding one payload per stored ngram (a list of tokens) and a count of
the ngrams stored. Its operations are:

- insert an ngram with a payload (`insert_ngram`, also reached as `ngm[g] = d`);
- look up a payload (`ngm[g]`) or test membership (`g in ngm`);
- count the stored ngrams (`len(ngm)`);
- delete an ngram, pruning the nodes left empty (`delete_ngram`, also `del ngm[g]`);
- list every stored ngram (`get_all_ngrams`);
- scan a token list for stored ngrams (`match_ngrams`). The scan is greedy,
  leftmost-longest and non-overlapping.

The files:

- `trie.dfy` (module `Trie`) holds the trie as a value.
  - A node is `Node(children, val)`: a map from tokens to child nodes and an
    optional payload. The payload slot stands in for the source's `-100` end tag.
  - `Lookup` is the lookup walk.
  - `Keys` and `Entries` give the abstract map of stored ngrams.
  - `WellFormed` is the shape invariant: the root holds no payload, and every
    node below the root that has no children holds one. The root itself may be
    left with no children, once the last ngram is deleted.
  - `Insert` and `Unmark` are the value-level effects of insertion and deletion.
    Lemmas relate both to the abstract map and to the invariant.
- `scan.dfy` (module `Matching`) defines the result of `match_ngrams`
  recursively:
  - `Extend` follows one candidate token by token.
  - `Scan` chains the candidates.

  Lemmas prove what the result means:
  - every match is stored;
  - every match is the longest stored ngram at its start;
  - matches come in order and never overlap;
  - no stored ngram starts in a gap between matches;
  - no stored ngram starts after the last match and before the point where the
    scan stops (`Stop`). The scan stops at the end of the input, unless the rest
    of the input from some candidate's start is a path of the trie.
- `enumeration.dfy` (module `Enumeration`) is the bookkeeping behind
  `get_all_ngrams`. Every position of the trie is, at every point of the walk,
  either on the stack or visited, and never both.
- `ngrammatcher.dfy` (module `NGramMatching`) is the class `NGramMatcher`.
  - Its fields are `trie` and `ngramCount`. Its invariant `Valid()` says the trie
    is well formed and the count equals the number of stored ngrams.
  - `Contents()` is the abstract map.
  - Each method follows the loops of the source. Longer loop bodies and loop
    phases are separate methods, so each proof stays small:
    - insertion is `Descend` then `Rebuild`;
    - deletion is `Locate` then `Unwind` and `PopNode`;
    - listing is `Visit` and `PushChildren`;
    - the scan is `Advance` and `Settle`.
  - Each `match_ngrams` branch has a lemma that keeps the loop invariant. The
    invariant is: the matches found so far, followed by what remains of the
    scan from the current state, equal `Scan(trie, words, 0)`.
- `scenarios.dfy` (module `Examples`) holds the documentation's examples as
  scenarios over the class. It also holds one input that shows how the scan
  ends when the input runs out.

Two behaviours of `match_ngrams` are modelled as written.

- **`not_end` truthiness.** `not_end` is tested for truthiness, so an index of 0
  counts as unset. `Truthy` models this. `ResumesAtMatchEnd` proves that this
  never changes where the scan resumes: whenever a match is pending, `not_end` is
  unset or equal to that match's end, and a match's end is at least 1.
- **Running out of input.** When the input runs out during a candidate, the
  pending match, if any, is reported and the scan stops. No later start is tried.
  `RunningOutEndsTheScan` shows the effect: with "a b c" and "b" stored, the input
  `["a", "b"]` gives no match. `Stop` is the start of that candidate: every
  start before it that no match covers matches nothing (`ScanSkipsOnlyNonMatches`,
  `ScanTailMatchesNothing`), and nothing is claimed of the starts after it.

## Model

| member | source | states |
|---|---|---|
| Trie.Lookup | ngrammatcher/ngrammatcher.py:71-79 | once some prefix of the ngram falls off the trie, the lookup finds no payload |
| Trie.KeysAreStored | ngrammatcher/ngrammatcher.py:71-79 | an ngram is in the abstract map exactly when the lookup walk reaches a node holding a payload, and its entry is that payload |
| Trie.SubtriePrefix | ngrammatcher/ngrammatcher.py:72-76 | once a prefix of the ngram falls off the trie, the walk along the whole ngram finds no node |
| Trie.SubtriePrefixes | ngrammatcher/ngrammatcher.py:72-76 | for every prefix of the ngram: if that prefix falls off the trie, so does the whole ngram |
| Trie.EmptyStoresNothing | ngrammatcher/ngrammatcher.py:30-31 | the empty trie stores no ngram, its abstract map is empty, and it is well formed |
| Trie.PathsAreSubtries | ngrammatcher/ngrammatcher.py:255-266 | the positions the listing walks over are exactly the token paths that lead to a node |
| Trie.Insert | ngrammatcher/ngrammatcher.py:219-229 | after insertion the path of the ngram exists; its payload is the new one if the ngram was absent, and the old one otherwise |
| Trie.InsertLookup | ngrammatcher/ngrammatcher.py:219-229 | after insertion, looking up the ngram gives the new payload if it was absent and the old payload otherwise; every other lookup is unchanged |
| Trie.InsertEntries | ngrammatcher/ngrammatcher.py:219-229 | insertion adds the ngram with its payload to the abstract map when it is absent, and leaves the map unchanged when it is present |
| Trie.InsertKeys | ngrammatcher/ngrammatcher.py:226-229 | insertion adds the ngram to the stored keys, and the number of keys grows by one exactly when the ngram was new |
| Trie.InsertWellFormed | ngrammatcher/ngrammatcher.py:219-229 | inserting a non-empty ngram keeps the root without payload and every childless node below the root holding a payload |
| Trie.Prune | ngrammatcher/ngrammatcher.py:191-195 | a node is dropped only when it stores nothing, and otherwise kept unchanged |
| Trie.Unmark | ngrammatcher/ngrammatcher.py:177-198 | after deletion the ngram has no payload, and no token is added to the node deleted from |
| Trie.UnmarkLookup | ngrammatcher/ngrammatcher.py:177-198 | after deletion and pruning, the deleted ngram has no payload and every other lookup is unchanged |
| Trie.UnmarkEntries | ngrammatcher/ngrammatcher.py:177-198 | deletion removes exactly the deleted ngram from the abstract map; every other ngram keeps its payload |
| Trie.UnmarkKeys | ngrammatcher/ngrammatcher.py:177-198 | deletion removes exactly the deleted ngram from the stored keys |
| Trie.UnmarkWellFormed | ngrammatcher/ngrammatcher.py:184-198 | pruning after deletion leaves no childless node below the root without a payload, and the root without payload |
| Trie.PrunedStoresSomething | ngrammatcher/ngrammatcher.py:191-195 | a node in which every childless node holds a payload stores at least one ngram |
| Trie.NodesLieOnStoredPaths | ngrammatcher/ngrammatcher.py:184-198 | in a well-formed trie, a non-empty path leads to a node exactly when it is a prefix of a stored ngram: pruning leaves no dangling chain |
| Matching.Truthy | ngrammatcher/ngrammatcher.py:320 | the truth test of `not_end` holds only of a set index, and never of index 0 |
| Matching.Extend | ngrammatcher/ngrammatcher.py:310-324 | a candidate's best match is the one it started with, or one that begins at the candidate's start and ends within the input after the current token |
| Matching.Scan | ngrammatcher/ngrammatcher.py:294-351 | every match lies inside the input, with start before end, at or after the position the scan starts from |
| Matching.Resume | ngrammatcher/ngrammatcher.py:326-351 | after a candidate ends, its match, if any, is the next one reported; once the input ran out, at most that match is reported |
| Matching.ValuesOf | ngrammatcher/ngrammatcher.py:353-354 | the result without spans has one payload per match, in the same order |
| Matching.LeavesTrie | ngrammatcher/ngrammatcher.py:326-329 | once a token leaves the trie, no longer span from the candidate's start is stored |
| Matching.ExtendFindsLongest | ngrammatcher/ngrammatcher.py:311-324 | a candidate's best match is a stored ngram with its payload, and no longer stored ngram from the same start fits in the input; with no match, nothing stored starts there |
| Matching.CandidateAt | ngrammatcher/ngrammatcher.py:311-324 | the candidate started at a position from the root finds the longest stored ngram there, or shows that none starts there |
| Matching.ExtendRanOut | ngrammatcher/ngrammatcher.py:306-324 | a candidate runs out of input exactly when the rest of the input from its start is a path of the trie |
| Matching.Stop | ngrammatcher/ngrammatcher.py:306-351 | the scan stops trying candidates at the end of the input, or earlier only at a start from which the rest of the input is a trie path |
| Matching.ScanHead | ngrammatcher/ngrammatcher.py:326-351 | the scan reports the longest match at its start, if any, then goes on from that match's end (or one past the start) exactly when the rest of the input from the start is not a trie path; otherwise it stops there |
| Matching.ScanMatchesAreStored | ngrammatcher/ngrammatcher.py:317-318 | every reported match is a stored ngram found at its span, with its payload |
| Matching.ScanMatchesAreLongest | ngrammatcher/ngrammatcher.py:313-319 | every reported match is the longest stored ngram starting at its start that fits in the input |
| Matching.ScanMatchesAreOrdered | ngrammatcher/ngrammatcher.py:330-339 | matches come left to right, each starting at or after the end of the one before |
| Matching.ScanSkipsOnlyNonMatches | ngrammatcher/ngrammatcher.py:341-348 | no stored ngram starts between the scan's start and the first match, or between two consecutive matches |
| Matching.ScanTailMatchesNothing | ngrammatcher/ngrammatcher.py:341-351 | no stored ngram starts after the last reported match (or the scan's start) and before the point where the scan stops |
| Enumeration.WalkStart | ngrammatcher/ngrammatcher.py:255-257 | the root's children pushed with their paths, plus the root itself, account for every position of the trie once |
| Enumeration.VisitNext | ngrammatcher/ngrammatcher.py:259-266 | popping a position and pushing its children keeps every position pending or visited exactly once, and the popped one was not visited before |
| NGramMatching.KeysOf | ngrammatcher/ngrammatcher.py:268-269 | the keys-only listing has one ngram per collected pair, in the same order |
| NGramMatching.VisitTop | ngrammatcher/ngrammatcher.py:259-262 | the popped position's payload is the lookup of its path, and it adds its ngram to those collected exactly when it is stored |
| NGramMatching.WalkDone | ngrammatcher/ngrammatcher.py:268-270 | once every position is visited, the collected ngrams are exactly the stored ones, each once |
| NGramMatching.InsertKeepsValid | ngrammatcher/ngrammatcher.py:219-229 | inserting a non-empty ngram keeps the trie well formed, and the stored count grows by one exactly when the ngram is new |
| NGramMatching.DeleteKeepsValid | ngrammatcher/ngrammatcher.py:177-202 | deleting a stored ngram keeps the trie well formed and removes exactly one stored ngram |
| NGramMatching.Rebuild | ngrammatcher/ngrammatcher.py:221-228 | writing the payload into the last node of the path (if absent) and each node back into its parent gives the inserted trie |
| NGramMatching.UnwindStep | ngrammatcher/ngrammatcher.py:187-195 | at each popped depth, the node with the empty child dropped, or the changed child written back, is that node with the ngram deleted below it |
| NGramMatching.PopNode | ngrammatcher/ngrammatcher.py:186-195 | one pop keeps the unwinding invariant: the node popped last is its original with the ngram deleted below it, and `previous_word` names it exactly when it was left empty |
| NGramMatching.ResumesAtMatchEnd | ngrammatcher/ngrammatcher.py:330-339 | when a match is pending, resuming at `not_end` if truthy and at `end_pos` otherwise is resuming at the end of that match |
| NGramMatching.CandidateGoesOn | ngrammatcher/ngrammatcher.py:311-324 | following a token inside the trie leaves the matches still to come unchanged |
| NGramMatching.CandidateEnds | ngrammatcher/ngrammatcher.py:327-348 | when a token leaves the trie, the pending match, if any, is the next one reported and the scan goes on from its end; otherwise the scan restarts one past the candidate's start |
| NGramMatching.InputRunsOut | ngrammatcher/ngrammatcher.py:350-351 | when the input runs out, the pending match, if any, is the last one reported |
| NGramMatching.Advance | ngrammatcher/ngrammatcher.py:311-324 | a step inside the trie keeps the loop invariant, keeps the candidate's start, advances by one token, and leaves the matches to come unchanged |
| NGramMatching.Settle | ngrammatcher/ngrammatcher.py:327-348 | a step off the trie reports the pending match, if any, and resumes strictly after the candidate's start, with the reported matches plus the scan from there unchanged |
| NGramMatching.NGramMatcher.constructor | ngrammatcher/ngrammatcher.py:27-32 | a new matcher has an empty trie, stores nothing, and counts zero |
| NGramMatching.NGramMatcher.Descend | ngrammatcher/ngrammatcher.py:219-224 | the walk gives the node at each depth of the ngram, an empty one where the source creates it, and the last node holds the ngram's current payload |
| NGramMatching.NGramMatcher.InsertNgram | ngrammatcher/ngrammatcher.py:219-229 | the ngram is stored with the payload if it was absent; a present one keeps its payload; the count grows by one exactly when it was absent; the invariant holds |
| NGramMatching.NGramMatcher.Get | ngrammatcher/ngrammatcher.py:71-79 | the payload stored for the ngram, and None when it is not stored |
| NGramMatching.NGramMatcher.Contains | ngrammatcher/ngrammatcher.py:119-126 | true exactly when the ngram is stored |
| NGramMatching.NGramMatcher.Len | ngrammatcher/ngrammatcher.py:142 | the number of stored ngrams |
| NGramMatching.NGramMatcher.FindPath | ngrammatcher/ngrammatcher.py:166-174 | no path exactly when a token of the ngram falls off the trie; otherwise the token and node at each depth |
| NGramMatching.NGramMatcher.Locate | ngrammatcher/ngrammatcher.py:166-182 | a path exactly when the ngram is stored, otherwise nothing: off the trie or no payload at its end |
| NGramMatching.NGramMatcher.Unwind | ngrammatcher/ngrammatcher.py:177-198 | clearing the slot and popping the path gives the trie with the ngram deleted and empty nodes pruned |
| NGramMatching.NGramMatcher.DeleteNgram | ngrammatcher/ngrammatcher.py:166-202 | true exactly when the ngram was stored; then it is removed, every other ngram keeps its payload and the count drops by one; otherwise nothing changes; the invariant holds |
| NGramMatching.NGramMatcher.PushChildren | ngrammatcher/ngrammatcher.py:264-266 | every child of the node is pushed with its path, so the pending positions grow by exactly those below the node |
| NGramMatching.NGramMatcher.Visit | ngrammatcher/ngrammatcher.py:259-266 | one step of the walk keeps the listing invariant and strictly shrinks what is pending |
| NGramMatching.NGramMatcher.GetAllNgrams | ngrammatcher/ngrammatcher.py:253-270 | every stored ngram exactly once, as many as the count; with payloads each pair is a stored entry; keys alone when asked |
| NGramMatching.NGramMatcher.MatchNgrams | ngrammatcher/ngrammatcher.py:294-355 | the matches are those of `Scan` from index 0: stored, longest, in order, without overlap, with no match skipped in a gap; payloads alone unless spans are asked for |
| Examples.SampleScan | ngrammatcher/ngrammatcher.py:14-21 | with "programming language" and "Python" stored, the class example finds both, at spans 0-1 and 3-5 |
| Examples.MatchingExample | ngrammatcher/ngrammatcher.py:14-21 | inserting the two ngrams and matching the sentence gives `["Python", "programming language"]` |
| Examples.LookupExample | ngrammatcher/ngrammatcher.py:110-117 | after one insertion the ngram is found with its payload, another is absent, and the count is one |
| Examples.ListingExample | ngrammatcher/ngrammatcher.py:243-251 | after one insertion the listing is that ngram alone, or that ngram with its payload |
| Examples.DeleteExample | ngrammatcher/ngrammatcher.py:155-164 | deleting a stored ngram reports true and makes it absent; deleting it again reports false; the count returns to zero |
| Examples.LongestMatchWins | ngrammatcher/ngrammatcher.py:310-324 | with "a" and "a b" stored, `["a", "b"]` gives "a b" alone, at span 0-2 |
| Examples.FailedCandidateRestarts | ngrammatcher/ngrammatcher.py:340-348 | with "a b" and "c" stored, `["a", "c"]` gives "c" at span 1-2: the failed candidate from "a" restarts the scan at index 1 |
| Examples.RunningOutEndsTheScan | ngrammatcher/ngrammatcher.py:306-351 | with "a b c" and "b" stored, `["a", "b"]` gives no match though "b" is stored and occurs at index 1 |

## Left out

- `__setitem__` and `__delitem__` (ngrammatcher/ngrammatcher.py:50, 98) only call `insert_ngram` and `delete_ngram`, so each is modelled once, as `InsertNgram` and `DeleteNgram`.
- The end tag `-100` (ngrammatcher/ngrammatcher.py:32) is replaced by a separate payload slot in each node. A token equal to the tag, which would collide with it in the source, is not modelled.
- The empty ngram is excluded: `InsertNgram` and `DeleteNgram` require a non-empty ngram.
  - In the source, `insert_ngram([])` marks the root.
  - `get_all_ngrams` would then treat the tag as a child token.
  - `delete_ngram([])` raises IndexError.
  - `WellFormed` states that the root holds no payload.
- Get: returns `Option`, so a stored `None` payload is told apart from "not stored". In the source both are `None` (ngrammatcher/ngrammatcher.py:76-79).
- GetAllNgrams: its result is specified as a multiset, not a sequence. The order depends on dict iteration and the stack (ngrammatcher/ngrammatcher.py:255-266); `PushChildren` takes the children in an unspecified order.
- In-place updates of shared dicts: the source changes nodes through aliases (ngrammatcher/ngrammatcher.py:223, 228, 180, 189, 198). The model rebuilds each changed node along the path and writes it back into its parent (`Rebuild`, `Unwind`). Sharing and identity of the dict objects are not modelled.
- MatchNgrams: no completeness claim for starts after `Stop`, the start of the candidate during which the input ran out. The source tries no start after it and may miss a stored ngram there (see `Examples.RunningOutEndsTheScan`). Every start before `Stop` that no match covers provably matches nothing.
- The docstring example at ngrammatcher/ngrammatcher.py:291 calls `ngm.find`, which does not exist, so it is not modelled.
- Python's dynamic typing is not modelled: tokens are strings and payloads are of one type parameter `V`. Errors raised by unhashable tokens or non-list arguments are out of scope.
- `setup.py` (packaging and the test runner) and the tests' loading of JSON fixtures are file I/O and are not part of this model. The tests serve only as evidence for the properties.
