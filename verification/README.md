# MeowCLI: verified models of the relay's in-memory protocols

MeowCLI relays LLM requests over a pool of credentials. This project models the data structures and
step protocols that decide, in memory, which credential serves a request and what the request looks like,
and proves what they are for. `dafny verify dfyconfig.toml` checks everything.

- **Content affinity** (`CandidateOrder`, `Radix*`, `Affinity*`). Per model, bound request fingerprints
  sit in a path-compressed trie. Every node caches the nearest binding of its subtree, nodes with more than
  10 children keep an indexed heap over their children, and a generation number decides which delayed cache
  events may remove a binding. The objects are classes, updated in place as in the source. Each class
  operation is proved against `View`, the value snapshot of the linked nodes; the `Radix*` modules prove what
  holds of snapshots. The results: binding and expiring are an update and a removal of one key of a
  finite map, lookup equals a naive scan of that map, the shape is determined by the bound set alone, and in
  every interleaving of binds, cache deletions and delayed events no stale event removes a newer binding.
- **Tool pairing** (`ToolMessages`, `ToolMatching`, `ToolPairing`, `ToolAnswers`, `ToolConversation`).
  Conversations are rewritten so that tool calls and responses of adjacent messages match by id. The rewriting
  is described exactly, and so is when it leaves every call answered, which is also when a second run changes
  nothing.
- **Schema cleaning** (`SchemaCleaning`). JSON schemas are made acceptable to the Gemini parser; what the
  result looks like, what survives, and that a second run changes nothing.
- **Refresh single flight** (`RefreshFlight`). A step machine for any number of goroutines on one entry,
  and the entry object whose methods are its steps.
- **Scheduler snapshots** (`CodexSnapshots`, `AntigravitySnapshots`). Every operation that publishes rows
  keeps throttled tiers unselectable, and for codex the index by plan.
- **Selection and scoring** (`Selection`, `QuotaScore`, `FailureThrottle`). Over the reals.
- **Relay retries** (`RelayRetry`). The retry loop against an arbitrary world, which decides every attempt
  and what the client gets.
- **Log buffer** (`LogBuffer`). A slice with a dead prefix refines a plain sequence.

## How to read it

Specification functions and predicates come first in a module, lemmas about them next, and the algorithm
as a method or class last. `hide` statements only keep proofs small. Ghost parameters such as `ns` (the
linked nodes), `heaps` (a set that covers their heaps) and `last` (the last sequence number) carry the state
that an operation's contract speaks about.

Where the code falls short of what one might expect, the model keeps the code as it is:

- The early exit of the error-rate scan is computed from cutoffs of which a missing one erases the earlier
  ones, so a credential without cutoff named before one with a cutoff can lose rows. `LogBuffer.ExitIsSafe` is
  the exact condition, in terms of the cutoffs only: `ExitLosesNothing` and `UnsafeExitLoses` are its two
  directions, and `CutoffsGivenIsSafe` shows that callers who give every cutoff meet it.
- A waiter can wake on the channel of the round before (`RefreshFlight.WaiterMayWakeEarly`); no waiter is
  stranded all the same.
- The first backoff is the base, even if it exceeds the maximum, so backoffs are monotone exactly when the
  base is within the maximum (`FailureThrottle.BackoffMonotoneIff`).
- A call that was paired can lose its answer when the message that answers it has calls of its own that find
  no responses: removing these removes parts that are call and response at once. `AnswerLostForGood` is such a
  conversation; there the result has an unanswered call and a second run changes it. `EveryCallAnsweredIff` gives
  the exact condition for all conversations, and `EveryCallAnsweredWhenUnique` the simpler one that is exact
  when no response id is repeated; with repeated ids another message can answer by chance (`AnswerReplaced`).
  `NormalizeTwice` shows that a second run changes nothing in exactly the same cases. That every response
  answers a call directly before it holds without any condition.

## Model

| member | source | states |
|---|---|---|
| `CandidateOrder.TopIsBest` | internal/bridge/affinity_cache.go:89-94 | In a heap ordered slot by slot, no entry beats the top one, so reading the top is taking the best of all. |
| `AffinityNodes.CandidateHeap.constructor` | internal/bridge/affinity_cache.go:46-58 | The index built from a child map holds exactly the children, its position table is the inverse of its slots, and it is in heap order. |
| `AffinityNodes.CandidateHeap.Less` | internal/bridge/affinity_cache.go:64-66 | Comparing two slots is comparing the ranks of their cached bindings: depth first, then the newer. |
| `AffinityNodes.CandidateHeap.Swap` | internal/bridge/affinity_cache.go:68-72 | Exchanges exactly two slots and keeps the position table the inverse. |
| `AffinityNodes.CandidateHeap.PushBack` | internal/bridge/affinity_cache.go:74-78 | Appends one entry and records its slot. |
| `AffinityNodes.CandidateHeap.PopBack` | internal/bridge/affinity_cache.go:80-87 | Removes and returns the last entry and its position; the other slots stay. |
| `AffinityNodes.CandidateHeap.Push` | internal/bridge/affinity_cache.go:296-299 | Adds one candidate to an ordered heap and leaves it ordered. |
| `AffinityNodes.CandidateHeap.Replace` | internal/bridge/affinity_cache.go:307-310 | Puts a node into the slot of another, although that slot was out of order, and leaves the heap ordered. |
| `AffinityNodes.CandidateHeap.Fix` | internal/bridge/affinity_cache.go:357-358 | Restores heap order when one slot has any rank, higher or lower than before. |
| `AffinityNodes.CandidateHeap.Remove` | internal/bridge/affinity_cache.go:329-329 | Removes exactly the entry of one slot, whose rank may be stale, and leaves the heap ordered. |
| `AffinityChildren.SetContentChild` | internal/bridge/affinity_cache.go:282-311 | Adds or replaces one child; afterwards the index exists exactly above 10 children, holds exactly the children and is ordered. The rebuild of a damaged index is shown to be unreachable. |
| `AffinityChildren.DeleteContentChild` | internal/bridge/affinity_cache.go:313-335 | Removes one child or reports that there is none; the index is dropped at 10 children and otherwise stays exact and ordered. |
| `AffinityChildren.RebuildCandidateHeap` | internal/bridge/affinity_cache.go:337-343 | Establishes the index, or its absence, from the children alone. |
| `AffinityChildren.RefreshContentChildCandidate` | internal/bridge/affinity_cache.go:345-359 | After the cached binding of one child changed, the index of its parent is ordered again. |
| `RadixForest.SamePathSameNode` | internal/bridge/affinity_cache.go:399-434 | No two nodes of a well linked trie stand for the same fingerprint. |
| `RadixForest.StepTowards` | internal/bridge/affinity_cache.go:368-382 | Below a node, everything that continues with an element lies under the child for that element; the walk can not miss a node. |
| `RadixBind.MarkStartsPropagation` | internal/bridge/affinity_cache.go:447-452 | Marking a node with a fresh sequence number leaves wrong caches only on the way to it, and each of those is wrong only in missing the new binding. |
| `RadixBind.PropagateStep` | internal/bridge/affinity_cache.go:463-471 | Setting one cache to the new binding moves the repair to the parent, with heap order known everywhere but around the stale entry. |
| `RadixBind.StopIsSafe` | internal/bridge/affinity_cache.go:465-469 | Where propagation returns early, every cached binding and every heap of the whole trie is already right: the early return loses no update. |
| `AffinityCaches.SetNearestTerminal` | internal/bridge/affinity_cache.go:496-501 | Sets one cache and repairs the parent index, which may have been out of order at that child; touches nothing else. |
| `AffinityCaches.PropagateTerminal` | internal/bridge/affinity_cache.go:462-472 | From a trie that is wrong only about the new binding to one where every cache and heap is right, changing caches only. |
| `RadixExpire.UnbindStartsPruning` | internal/bridge/affinity_cache.go:522-526 | Clearing a binding leaves wrong caches only on the way to it, and only by still naming it. |
| `RadixExpire.PruningStopsAtBinding` | internal/bridge/affinity_cache.go:566-568 | When pruning ends at a bound ancestor, every cache and heap is right without any recomputation: returning nil loses no update. |
| `RadixExpire.HeapTopIsBestOfChildren` | internal/bridge/affinity_cache.go:482-484 | The top of the index is the result the linear scan over the children would give. |
| `AffinityCaches.ScanChildren` | internal/bridge/affinity_cache.go:485-492 | The linear scan finds a cached binding of a child that no other child beats, or that there is none. |
| `AffinityCaches.BestBelow` | internal/bridge/affinity_cache.go:475-492 | The node itself if bound, else the best cached binding of its children, whether read from the index or scanned. |
| `AffinityCaches.RecomputeNode` | internal/bridge/affinity_cache.go:474-494 | Sets the cache of one node to the nearest binding of its subtree, provided everything below is right. |
| `AffinityCaches.RecomputePath` | internal/bridge/affinity_cache.go:454-459 | Recomputing upwards from the highest disturbed node makes every cache and heap right. |
| `RadixEdits.LeafAddedRepaired` | internal/bridge/affinity_cache.go:405-407 | Hanging a new unbound leaf keeps links, caches and heaps right. |
| `RadixEdits.EdgeSplitRepairedBut` | internal/bridge/affinity_cache.go:436-442 | Splitting an edge keeps all links, caches and heaps right except the empty cache of the new node. |
| `RadixEdits.DropMovesPruning` | internal/bridge/affinity_cache.go:543-561 | Removing a leaf or merging a pass-through node moves the repair to its parent and disturbs nothing else. |
| `RadixEdits.RootRemovedRepaired` | internal/bridge/affinity_cache.go:533-535 | Dropping the bucket of an empty unbound root leaves every other node right. |
| `AffinityEdits.AttachLeaf` | internal/bridge/affinity_cache.go:405-407 | The in-place edit is exactly the addition of one leaf to the trie, with the parent index kept exact and ordered. |
| `AffinityEdits.SplitChild` | internal/bridge/affinity_cache.go:436-445 | The in-place edit is exactly an edge split, after which caches and heaps are right everywhere. |
| `AffinityEdits.RemoveLeaf` | internal/bridge/affinity_cache.go:544-548 | The in-place edit is exactly the removal of one leaf, also while the cache of the leaf is stale. |
| `AffinityEdits.MergeNode` | internal/bridge/affinity_cache.go:549-561 | The in-place edit is exactly the merging of one node into its only child: edges joined, the child moved up, all else as before. |
| `AffinityEdits.OnlyContentChild` | internal/bridge/affinity_cache.go:572-577 | Returns the only child. |
| `AffinityInsert.CommonElementPrefix` | internal/bridge/affinity_cache.go:388-396 | Computes the length of the longest common prefix, as defined by RadixMatch.CommonLen. |
| `RadixMatch.CommonLen` | internal/bridge/affinity_cache.go:388-396 | The two sequences agree up to the result and differ right after it, unless one ends there. |
| `AffinityInsert.PlaceLeaf` | internal/bridge/affinity_cache.go:405-411 | The rest of the fingerprint becomes one new leaf; the bindings stay. |
| `AffinityInsert.PlaceInEdge` | internal/bridge/affinity_cache.go:414-425 | The node of the fingerprint is made inside an edge, by a split and where needed a leaf below it; the bindings stay and the trie is ready to bind it. |
| `AffinityInsert.Place` | internal/bridge/affinity_cache.go:403-433 | Finds or makes the node of a fingerprint: afterwards one node stands for it, the set of bindings is unchanged, and only this node may lack a reason to exist. |
| `AffinityPrune.PruneOne` | internal/bridge/affinity_cache.go:542-565 | One round removes the superfluous node and leaves at most its parent superfluous; no binding is touched. |
| `AffinityPrune.PruneEmptyPath` | internal/bridge/affinity_cache.go:540-570 | Cuts back until a bound node, a root or a branching node; returns that node for recomputing, and nil exactly when it is bound. |
| `AffinityPrune.RepairAbove` | internal/bridge/affinity_cache.go:529-532 | After pruning, every cache and heap is right, whether or not anything was recomputed. |
| `RadixBindings.BoundAfterBind` | internal/bridge/affinity_cache.go:399-434 | Binding one node is updating one key of the map from fingerprints to bindings. |
| `RadixBindings.BoundAfterExpire` | internal/bridge/affinity_cache.go:522-536 | Unbinding one node is removing one key of that map. |
| `RadixBindings.NewestGeneration` | internal/bridge/affinity_cache.go:447-452 | The sequence number of a new binding is higher than all others, and bound nodes keep distinct numbers. |
| `RadixBindings.LeadsToBinding` | internal/bridge/affinity_cache.go:538-570 | In canonical form every node has a bound node in its subtree. |
| `RadixBindings.SplitKeepsCanonical` | internal/bridge/affinity_cache.go:436-445 | After a split only the new node may lack a second child. |
| `RadixBindings.MergeKeepsCanonical` | internal/bridge/affinity_cache.go:549-561 | After a merge only the parent may have become superfluous. |
| `RadixMatch.FrontierAtNode` | internal/bridge/affinity_cache.go:369-373 | When no child continues, nothing bound shares more with the query than the walk has matched, and all that shares as much lies below. |
| `RadixMatch.FrontierInEdge` | internal/bridge/affinity_cache.go:374-380 | The same when the walk stops inside an edge. |
| `RadixMatch.FrontierIsBestMatch` | internal/bridge/affinity_cache.go:363-386 | The binding cached where the walk stops is what a naive scan over the whole map picks: longest shared prefix, then shortest, then newest. |
| `RadixMatch.BestMatchUnique` | internal/bridge/affinity_cache.go:503-520 | A naive scan has one answer only. |
| `RadixCanon.NodesFromBindings` | internal/bridge/affinity_cache.go:399-570 | A node exists for a path exactly when the path is bound, is a fixed prefix in use, or is a point where two bound fingerprints part. |
| `RadixCanon.ShapeDetermined` | internal/bridge/affinity_cache.go:399-570 | Two tries with the same bound fingerprints have, for every node of one, a node of the other with the same path, depth, edge, parent path, child elements and index or none. |
| `RadixCanon.FreshKeyLeavesNoTrace` | internal/bridge/affinity_cache.go:399-570 | Tries that differ by binding a new key and removing it again have the same map and mirror each other node by node, both ways. |
| `AffinityTrie.Trie.constructor` | internal/bridge/affinity_cache.go:115-119 | A new trie binds nothing and satisfies the invariant. |
| `AffinityTrie.Trie.MarkTerminal` | internal/bridge/affinity_cache.go:447-452 | Takes the next sequence number and stores it with the credential. |
| `AffinityTrie.Trie.BucketFor` | internal/bridge/affinity_cache.go:212-219 | Finds the bucket of a fixed prefix or makes one with an empty root; the bindings stay. |
| `AffinityTrie.Trie.Insert` | internal/bridge/affinity_cache.go:399-434 | Binds exactly one node, the one of the fingerprint, with the next sequence number; every other bound node keeps its identity and binding, and the full invariant holds. |
| `AffinityTrie.Trie.Bind` | internal/bridge/affinity_cache.go:212-221 | For every valid trie: the map changes at exactly the fingerprint, bound nodes keep their identity, and the invariant (links, caches, heaps, canonical form, generations, buckets) holds again. |
| `AffinityTrie.Trie.DropEmptyBucket` | internal/bridge/affinity_cache.go:533-535 | The bucket goes exactly when its root is unbound and empty; the invariant holds afterwards. |
| `AffinityTrie.Trie.ExpireTerminal` | internal/bridge/affinity_cache.go:522-536 | For every valid trie and bound node: exactly this binding goes, other bound nodes keep their identity, pruned nodes are unbound, and the invariant holds again. |
| `AffinityTrie.Trie.BindThenExpire` | internal/bridge/affinity_cache.go:399-536 | Binding a new fingerprint and expiring it restores the map, and the shape node by node. |
| `AffinityTrie.Trie.Lookup` | internal/bridge/affinity_cache.go:363-386 | For every valid trie the walk returns the depth and binding that a naive scan over the bound map returns. |
| `AffinityTrie.Trie.Find` | internal/bridge/affinity_cache.go:178-189 | Without a bucket nothing bound shares the fixed prefix; with one, the answer of the naive scan. |
| `AffinityProtocol.NextKeeps` | internal/bridge/affinity_cache.go:160-229 | Every step of every interleaving keeps the invariant: each current generation is in exactly one place (being stored, in the cache, or in one undelivered event), and the cache only knows bound nodes. |
| `AffinityProtocol.RunKeeps` | internal/bridge/affinity_cache.go:160-229 | The invariant holds in every state of every run, of any length. |
| `AffinityProtocol.RemovalIsFinal` | internal/bridge/affinity_cache.go:162-170 | An event that removes a binding is the last trace of it: no cache entry of the node is left and no bind of the node is under way. |
| `AffinityProtocol.BindingSurvives` | internal/bridge/affinity_cache.go:160-229 | Through any steps a binding stays until the cache gives up that very generation or the node is bound again; no stale event removes it. |
| `AffinityProtocol.QuietMeansAgreement` | internal/bridge/affinity_cache.go:207-229 | With no undelivered event and no half-done bind, bound nodes and cache entries are the same, with the same generations. |
| `AffinityProtocol.HitIsCurrent` | internal/bridge/affinity_cache.go:172-205 | A match reads a binding, any steps happen, and it finds the generation it read in the cache: then the binding has been current all the time, or the same node has been bound again and that bind is not finished. |
| `AffinityProtocol.NeverAgain` | internal/bridge/affinity_cache.go:447-452 | A generation that is not current any more never becomes current again. |
| `AffinityTable.Table.constructor` | internal/bridge/affinity_cache.go:140-158 | An empty table satisfies the invariant and shows the initial state of the protocol. |
| `AffinityTable.Table.MarkBinding` | internal/bridge/affinity_cache.go:212-222 | The first half of a bind on the real trie is the protocol step Mark and updates exactly one key. |
| `AffinityTable.Table.CacheSet` | internal/bridge/affinity_cache.go:223-226 | The second half is the protocol step that stores the generation and reports the replaced one. |
| `AffinityTable.Table.CacheDrop` | internal/bridge/affinity_cache.go:149-155 | A deletion by the cache changes only the cache and leaves an event for later. |
| `AffinityTable.Table.Deliver` | internal/bridge/affinity_cache.go:162-170 | A delivered event removes the binding of its node exactly when it names the current generation; it may name nodes that were pruned long ago. |
| `AffinityTable.Table.Bind` | internal/bridge/affinity_cache.go:207-229 | An invalid fingerprint or empty credential changes nothing. Otherwise exactly this fingerprint is bound to the credential, the cache holds the new generation for its node, an entry that this replaces is reported later, and all other entries of the cache stay. |
| `AffinityTable.Table.MatchLookup` | internal/bridge/affinity_cache.go:178-198 | Reads a node, its generation and its credential exactly when the best match of a naive scan shares at least max(firstDialogue, 4) elements, and then those of that match. |
| `AffinityTable.Table.MatchConfirm` | internal/bridge/affinity_cache.go:200-205 | After any steps in between: returns the credential read exactly when the cache has the node with the generation read; then its fingerprint is still bound as it was read, or has been bound again by a bind that is not finished. |
| `AffinityTable.GrownStays` | internal/bridge/affinity_cache.go:160-229 | Whatever a step of the table does (bind with a higher generation, unbind, or leave the trie alone), a generation still bound is bound as it was when it was read; this is what the second half of a match relies on. |
| `AffinityTable.Table.Match` | internal/bridge/affinity_cache.go:172-205 | With no step between the two halves: a credential is returned exactly when the best match of a naive scan shares enough elements and is live in the cache, and then it is the credential bound to that match. |
| `AffinityTable.Table.BindThenMatch` | internal/bridge/affinity_cache.go:172-229 | For every valid table with no bind in flight: binding a fingerprint and matching the same one returns the credential just bound. |
| `ToolMessages.NormalizeClaudeContent` | api/antigravity/utils.go:284-315 | The loop computes the arranged message, which ArrangedByFields describes in the fields of the parts, and says whether anything is left. |
| `ToolMessages.ArrangedByFields` | api/antigravity/utils.go:291-307 | Of a model message remain, each group in its old order: thoughts with text and signature, then parts without a thought key that have text, a response or inline data, then the calls, of which those with a thought key need text and signature. Of other messages the same parts remain, all in their old order. |
| `ToolMessages.SelectSplit` | api/antigravity/utils.go:291-307 | Selecting from two lists of parts one after the other is selecting from each; with SelectOne, for a single part, this determines the selection that the field statements use. |
| `ToolMessages.ArrangedIsTidy` | api/antigravity/utils.go:291-307 | Nothing empty is left and the three groups follow each other. |
| `ToolMessages.TidyStays` | api/antigravity/utils.go:284-315 | A message already in that form is left as it is. |
| `ToolMessages.FilterFunctionParts` | api/antigravity/utils.go:413-429 | Keeps exactly the parts without such a call or response and those whose id is allowed. |
| `ToolMessages.FilteredIds` | api/antigravity/utils.go:413-429 | After filtering only allowed ids are left, and each as often as before. |
| `ToolMatching.FindFree` | api/antigravity/utils.go:369-377 | Finds the first response that is free and fits the call. |
| `ToolMatching.EnsurePairedFunctionIds` | api/antigravity/utils.go:360-396 | The loop computes PairUp: call by call the first free response that fits is taken, and which of the two lends or gets which id. |
| `ToolMatching.PairUpFacts` | api/antigravity/utils.go:360-403 | Pairing succeeds exactly when the greedy matching finds a free response for every call; then all calls have ids, each with its own response of that id; only missing ids of calls and of responses are filled in; and what is answered by id already is matched again without a change. |
| `ToolMatching.PairsById` | api/antigravity/utils.go:398-403 | If every response has an id, the greedy matching succeeds exactly when all calls have ids and each its own response with that id, whatever the names. |
| `ToolMatching.PairsByName` | api/antigravity/utils.go:398-403 | If no response has an id, the greedy matching succeeds exactly when all calls have names and each its own response with that name, whatever the ids of the calls. |
| `ToolMatching.GreedyCanMiss` | api/antigravity/utils.go:368-377 | With both kinds mixed the first fit can take a response that a later call needs, although another assignment fits: a concrete example. |
| `ToolMatching.CoveredFinds` | api/antigravity/utils.go:368-377 | If every call is answered by id, the greedy matching can not run out of responses. |
| `ToolMatching.SettleCalls` | api/antigravity/utils.go:322-341 | Computes what becomes of a message and of the one after it when the calls are paired or removed. |
| `ToolMatching.SettleFacts` | api/antigravity/utils.go:322-341 | The calls of a model message stay, each answered in the next message, or all go; exactly those without a pairing go; and apart from its calls, and parts that are calls too, a message keeps everything. |
| `ToolPairing.KeepPairedToolParts` | api/antigravity/utils.go:317-358 | The loop, which rewrites the next message while it goes, computes exactly the messages kept, for every conversation and all drawn ids. |
| `ToolPairing.KeptFacts` | api/antigravity/utils.go:317-358 | For every conversation: each kept response has an id and answers a call of the message kept before it, nothing but calls and responses is lost, order and arrangement stay. |
| `ToolPairing.KeptAt` | api/antigravity/utils.go:343-355 | Each kept message is what its own round leaves of its own input message, given the messages kept before. |
| `ToolPairing.AllCallsOrNone` | api/antigravity/utils.go:322-341 | For every conversation, settling keeps all calls of a model message if they pair with the next message and none otherwise. |
| `ToolPairing.SettledCallsStay` | api/antigravity/utils.go:343-355 | A message without parts that are call and response keeps all its settled calls to the end of the loop, and stays if it has any. |
| `ToolAnswers.AnsweredExactly` | api/antigravity/utils.go:322-355 | For every conversation and every kept model message with calls: they are answered in the message directly after, if and only if the message they were paired with does not lose its own calls, or the first message that is left after this loss answers them. It is enough that the message loses no response they need. |
| `ToolAnswers.AnsweredWhenUnique` | api/antigravity/utils.go:322-355 | If no two responses have the same id: answered if and only if the message they were paired with, when it loses its calls, keeps the responses to them. |
| `ToolConversation.NormalizeClaudeContents` | api/antigravity/utils.go:255-282 | For every conversation and all drawn ids the result is exactly the reference: arrange, pair, cut off model messages at the end. |
| `ToolConversation.NormalizedFacts` | api/antigravity/utils.go:255-282 | For every conversation: every response left answers a call of the message directly before it, no message is empty, parts are in order, and the last message is not the model's. |
| `ToolConversation.NothingElseLost` | api/antigravity/utils.go:255-282 | For every conversation: what is left of a message is its own parts in order, with calls and responses gone or given ids; only messages without other parts, and model messages at the end, go. |
| `ToolConversation.PlainPartsKept` | api/antigravity/utils.go:255-315 | For every conversation, in the fields of the parts and without naming the arrangement: of each message left, the parts without call and response are exactly its parts with text or inline data and no thought key and its thoughts with text and signature, as often and in the order they had, thoughts first in model messages. A message with such a part is left, unless it is the model's and nothing after it is left. |
| `ToolConversation.PartsInOrder` | api/antigravity/utils.go:284-315 | For every conversation: no part left is empty, and in every model message left the thoughts without call come first and the calls last. |
| `ToolConversation.EveryCallAnsweredIff` | api/antigravity/utils.go:255-282 | For every conversation: every model call in the result has its own response in the message directly after, if and only if each message that is not cut off is secured: the message its calls were paired with does not lose its own, or what is left next answers them. |
| `ToolConversation.EveryCallAnsweredWhenUnique` | api/antigravity/utils.go:255-282 | If no two responses have the same id: every model call in the result is answered, if and only if no message that loses its calls loses with them a response that a call in the result needs. |
| `ToolConversation.AnsweredIfLosersExclusive` | api/antigravity/utils.go:331-341 | Every model call in the result is answered if the messages that lose their calls have no part that is call and response. |
| `ToolConversation.EveryCallAnswered` | api/antigravity/utils.go:317-403 | Where all is answered, each call part of a model message has a response part with its non-empty id in the next message. |
| `ToolConversation.EveryResponseAnswers` | api/antigravity/utils.go:343-353 | Each response part has a non-empty id, and the message directly before has a call part with it. |
| `ToolConversation.SettledStays` | api/antigravity/utils.go:255-282 | A conversation in which all is answered, tidy and not ending with the model, is left exactly as it is. |
| `ToolConversation.NormalizeTwice` | api/antigravity/utils.go:255-282 | For every conversation and all drawn ids: a second run changes nothing, if and only if every model call in the first result is answered. |
| `ToolConversation.AnswerLostForGood` | api/antigravity/utils.go:331-341 | A concrete conversation whose result has an unanswered call, and whose second run removes it: the message that answers is a call without response in the same part. |
| `ToolConversation.AnswerReplaced` | api/antigravity/utils.go:343-353 | A concrete conversation in which the response is lost in the same way and the next message repeats it, so that the call is answered all the same. |
| `SchemaCleaning.CleanAntigravityGeminiSchema` | api/antigravity/utils.go:131-149 | The in-place rewrite computes the reference cleaning of the whole document, in any order of keys. |
| `SchemaCleaning.CleanCurrentSchemaObject` | api/antigravity/utils.go:151-190 | The steps on one object, in their order, compute the reference cleaning of the object. |
| `SchemaCleaning.FlattenStringEnumAnyOf` | api/antigravity/utils.go:192-210 | Computes the flattening that UnionFlattened describes. |
| `SchemaCleaning.CollectStringEnumUnionValues` | api/antigravity/utils.go:212-242 | Succeeds exactly for non-empty unions of string enumerations and collects their values without repetition. |
| `SchemaCleaning.CleanedIsAcceptable` | api/antigravity/utils.go:131-190 | After cleaning, every object reached as a schema has no const and no listed keyword, nothing to flatten, and as an object schema an object of properties and a string array of required names. |
| `SchemaCleaning.AcceptableStays` | api/antigravity/utils.go:131-190 | Cleaning leaves acceptable documents as they are. |
| `SchemaCleaning.CleaningTwice` | api/antigravity/utils.go:131-190 | Cleaning twice is cleaning once. |
| `SchemaCleaning.PropertyNamesSurvive` | api/antigravity/utils.go:135-142 | Objects of property names keep all their names, even those that are keywords, and below each only its schema is cleaned. |
| `SchemaCleaning.OtherKeysSurvive` | api/antigravity/utils.go:151-190 | A schema object loses the listed keywords only; outside six rewritten keys every other value is just the cleaned child. |
| `SchemaCleaning.ConstantKept` | api/antigravity/utils.go:152-162 | A constant becomes an enumeration of its one value when there was none. |
| `SchemaCleaning.UnionKept` | api/antigravity/utils.go:212-242 | The values collected are the strings of all variants, each once, in the order in which they first occur. |
| `SchemaCleaning.UnionFlattened` | api/antigravity/utils.go:151-210 | For every object: an "anyOf" whose cleaned variants all enumerate strings, some string among them, is gone, "type" is "string", and "enum" is an array of exactly the strings that some variant enumerates, each once, in the order in which they first occur. In all other cases "anyOf", "type" and a given "enum", also beside "const", are just the cleaned children, and a "const" without "enum" becomes one of its value. |
| `SchemaCleaning.EnumVariantStays` | api/antigravity/utils.go:221-228 | A variant of type "string" with an array of strings as "enum" and no "anyOf" of its own still has both when it has been cleaned. |
| `SchemaCleaning.ObjectDeclares` | api/antigravity/utils.go:175-189 | A cleaned schema of type "object" has the given "properties", cleaned as a table, if that is an object and an empty one otherwise, and the given "required" if that is an array of strings and an empty one otherwise; other schemas keep both keys as cleaned children. |
| `RefreshFlight.StepKeeps` | core/codex/manager.go:152-202 | Every step of any goroutine keeps the invariant: one owner, refreshing true exactly while there is one, every open channel being worked on by its owner, nothing closed twice. |
| `RefreshFlight.RunKeeps` | core/codex/manager.go:152-202 | The invariant holds after any run. |
| `RefreshFlight.Safety` | core/codex/manager.go:263-291 | In every run of any number of goroutines: at most one owner, no double close, and every open channel has an owner whose next step closes it. |
| `RefreshFlight.NotStranded` | core/codex/manager.go:365-415 | Every waiter can be woken by at most four steps, all its own or the owner's. |
| `RefreshFlight.PollFindsOwner` | core/codex/manager.go:367-390 | A waiter blocks on an open channel exactly while the owner is working; otherwise the channel it finds is closed. |
| `RefreshFlight.WaiterMayWakeEarly` | core/codex/manager.go:392-415 | A run in which a waiter returns on the channel of the round before, while the new owner has not begun. |
| `RefreshFlight.CodexEntry.CompareAndSwap` | core/codex/manager.go:265-265 | The real field update is the machine step; it wins exactly when no refresh is running. |
| `RefreshFlight.CodexEntry.BeginRefresh` | core/codex/manager.go:442-448 | Makes a new open channel and clears the last error, as the machine step does. |
| `RefreshFlight.CodexEntry.FinishRefresh` | core/codex/manager.go:450-458 | In every state the machine can reach, the channel is still open, so closing it can not panic; the result is the machine step. |
| `RefreshFlight.CodexEntry.RefreshState` | core/codex/manager.go:460-464 | What a waiter reads is the channel made last, or none. |
| `CodexSnapshots.BuildAvailableSnapshot` | core/codex/scheduler.go:674-689 | The index points each plan at its first available row; if the available rows are in descending order these are the best. |
| `CodexSnapshots.FirstIsBest` | core/codex/scheduler.go:674-689 | With available rows descending, first per plan means: exactly the plans with an available row, each at a row no other of the plan beats. |
| `CodexSnapshots.OthersDescending` | core/codex/scheduler.go:551-558 | Removing rows keeps the available ones in order, so eviction need not sort. |
| `CodexSnapshots.OthersExactly` | core/codex/scheduler.go:551-556 | Evicting removes exactly the rows of the credential, keeps each other row as often as before, and reorders nothing. |
| `CodexSnapshots.SuspendedDescending` | core/codex/scheduler.go:570-587 | Making one row unavailable, or leaving its default score alone, keeps the available ones in order, so suspending and throttling need not sort. |
| `CodexSnapshots.RebuiltUnavailable` | core/codex/scheduler.go:337-374 | In a rebuild no tier is available while the database or the scheduler's memory has it throttled. |
| `CodexSnapshots.RebuiltRow` | core/codex/scheduler.go:337-374 | A rebuilt row, in its fields: each tier that is throttled, by the database or in memory, has a negative score and the later of the two deadlines, any other the score of that tier for the row's own quota; each weight is 1 minus the credential's positive error rate for that tier, and 1 without one. |
| `CodexSnapshots.Scheduler.RefreshAvailableFromRows` | core/codex/scheduler.go:332-386 | Publishes exactly one row for each synced database row not under validation, with the fields that RebuiltRow states, in descending order with a right index. No throttled tier becomes available. |
| `CodexSnapshots.Scheduler.ApplyQuotaToAvailable` | core/codex/scheduler.go:388-451 | Changes exactly the first row of the credential: each tier gets the new quota and its own new score, unless it is throttled, and full weight exactly if it becomes available again. Reports whether it was found; the index is right again. |
| `CodexSnapshots.Scheduler.RefreshAvailableScores` | core/codex/scheduler.go:453-478 | Each available tier of every row gets its own score of the row's quota, nothing else changes, and the index is right again. No throttled tier becomes available. |
| `CodexSnapshots.Scheduler.EvictCredential` | core/codex/scheduler.go:542-559 | Removes exactly the rows of the credential, in order, and the index is right without sorting. No throttled tier becomes available. |
| `CodexSnapshots.Scheduler.SuspendCredentialTier` | core/codex/scheduler.go:561-588 | Makes exactly one tier of the first row unavailable; an unknown tier changes nothing; the index is right without sorting. No throttled tier becomes available. |
| `CodexSnapshots.Scheduler.ThrottleCredentialTier` | core/codex/scheduler.go:590-619 | The same with the deadline. No throttled tier becomes available. |
| `CodexSnapshots.Scheduler.ApplyCredentialWeight` | core/codex/scheduler.go:1435-1473 | Changes exactly one weight of the first row; the index is right again. No throttled tier becomes available. |
| `QuotaScore.CalcCodexScore` | core/codex/scheduler.go:739-759 | The windows that upstream reported, shortest first, are scored by the reference that ScoreBounds and ScoreRises speak about. |
| `QuotaScore.LayeredQuotaPressureScore` | core/codex/scheduler.go:761-783 | For any number of windows the backward loop with its running cap and early exit computes the reference: -1, or the weighted sum of each pressure capped by those of the longer windows. |
| `QuotaScore.ScoreBounds` | core/codex/scheduler.go:739-783 | The score is -1 exactly without windows or with an exhausted one; otherwise it is in (0, 10], at least the smallest pressure of all windows and at most that of the longest. |
| `QuotaScore.ScoreRises` | core/codex/scheduler.go:739-783 | Raising any quotas, exhausted ones included, never lowers the score. |
| `QuotaScore.QuotaPressure` | core/scheduling/scheduling.go:98-115 | -1 exactly for a quota of at most 0, and otherwise in (0, 10]. |
| `QuotaScore.PressureRises` | core/scheduling/scheduling.go:98-115 | More quota in the same window never means less pressure. |
| `QuotaScore.PressureByCase` | core/scheduling/scheduling.go:98-115 | Below 10 the pressure is the quota divided by the share of the window still to come; without a reset time, or with the reset beyond the window, that share is 1, and it is never taken below a millionth. |
| `QuotaScore.PressureNearerReset` | core/scheduling/scheduling.go:98-115 | A nearer reset never means less pressure. |
| `QuotaScore.LayeredByWindow` | core/codex/scheduler.go:761-783 | Each window counts at most as much as any longer one, and the weights, from the shortest window on, are 1, or 0.8 and 0.2, or 0.7, 0.2 and 0.1. |
| `Selection.SortedIsStableSort` | core/scheduling/scheduling.go:186-201 | The reference order is the stable descending sort: descending, the same candidates, ties in their old order. |
| `Selection.InsertBestCandidate` | core/scheduling/scheduling.go:186-201 | The bounded buffer becomes the first k of the buffer with the candidate inserted behind everything at least as good. |
| `Selection.TakeInserted` | core/scheduling/scheduling.go:186-201 | What falls out of a full buffer could never have come back. |
| `Selection.Collect` | core/scheduling/scheduling.go:149-160 | The buffer at the end is the first k of the stable descending sort of all items with a positive score. |
| `Selection.WeightedPick` | core/scheduling/scheduling.go:165-177 | For every random number in [0, 1) the pick is the first candidate whose cumulative weight reaches its share of the total. |
| `Selection.PickWeightedFromBest` | core/scheduling/scheduling.go:138-178 | Succeeds exactly when k is positive and some score is; the item is the one that the random number points at in the best k. |
| `FailureThrottle.CalcBackoff` | core/scheduling/scheduling.go:223-241 | The doubling loop computes base times a power of two, or the maximum as soon as half of it is reached. |
| `FailureThrottle.BackoffBounded` | core/scheduling/scheduling.go:223-241 | From the second throttle on, the backoff is within the maximum. |
| `FailureThrottle.BackoffDoubles` | core/scheduling/scheduling.go:223-241 | From the second throttle on the backoff doubles with each, and is the maximum exactly once doubling reaches it or falls one short. |
| `FailureThrottle.BackoffMonotoneIff` | core/scheduling/scheduling.go:223-241 | More failures never shorten the backoff if and only if the base is within the maximum. |
| `FailureThrottle.DecideFailureThrottle` | core/scheduling/scheduling.go:203-221 | Throttles exactly on an explicit retry-after of a 429 or 503, or from the third failure in a row, and for how long. |
| `AntigravitySnapshots.TimePasses` | core/antigravity/scheduler.go:702-707 | The invariant that an unexpired throttle means a negative score holds on as time passes. |
| `AntigravitySnapshots.RebuiltRow` | core/antigravity/scheduler.go:226-296 | A rebuilt row, in its fields and for every tier: a negative score and the later deadline if the tier is throttled by the database or in memory, and otherwise the score of that tier's own quota and reset time; weight 1. |
| `AntigravitySnapshots.Scheduler.RefreshAvailableFromRows` | core/antigravity/scheduler.go:221-297 | Publishes exactly one row for each synced database row not under validation, in order, with the fields that RebuiltRow states. No throttled tier becomes available. |
| `AntigravitySnapshots.Scheduler.ApplyMemory` | core/antigravity/scheduler.go:775-792 | The loop over the six tiers extends deadlines and marks exactly the tiers with an active remembered throttle. |
| `AntigravitySnapshots.Scheduler.ApplyQuotaToAvailable` | core/antigravity/scheduler.go:662-700 | Replaces exactly the first row of the credential: every tier has its new quota and reset time and is scored by them, unless it is throttled; deadlines and weights stay; credits change only when they were synced. |
| `AntigravitySnapshots.Scheduler.RefreshAvailableScores` | core/antigravity/scheduler.go:709-734 | Every available tier is scored by its own quota and reset time, nothing else changes, and no throttled tier becomes available. |
| `AntigravitySnapshots.Scheduler.EvictCredential` | core/antigravity/scheduler.go:736-746 | Removes exactly the rows of the credential. |
| `AntigravitySnapshots.Scheduler.SuspendCredentialTier` | core/antigravity/scheduler.go:748-759 | Changes the score of exactly one tier of one row. |
| `AntigravitySnapshots.Scheduler.ThrottleCredentialTier` | core/antigravity/scheduler.go:761-773 | Changes score and deadline of exactly one tier of one row; no other pair of credential and tier changes. |
| `AntigravitySnapshots.Scheduler.RememberThrottleUntil` | core/antigravity/scheduler.go:885-899 | Remembers exactly one deadline, and the published row is throttled until then. |
| `AntigravitySnapshots.ScoresByFields` | core/antigravity/scheduler.go:632-662 | In the fields of a row: which rows are usable, which can be picked by score, with score times weight, and which by credits, with credits times a weight of at least 0.001. |
| `AntigravitySnapshots.PickByPlan` | core/antigravity/scheduler.go:341-361 | Succeeds exactly when some score is positive; the row is the one the random number points at among the best rows of the first preferred and allowed plan that has any, or among all rows when none has. |
| `AntigravitySnapshots.SelectPreferred` | core/antigravity/scheduler.go:326-340 | Returns the preferred credential exactly when one of its rows is usable, by score or by credits. |
| `AntigravitySnapshots.SelectCredential` | core/antigravity/scheduler.go:316-386 | Never returns a row throttled for the tier, by score or by credits; falls back to credits exactly when no score is positive; finds a credential exactly when one qualifies; and without a preferred credential returns the weighted pick by plan. |
| `LogBuffer.Store.Prune` | internal/logs/store.go:220-238 | On the live rows: drops exactly the expired ones, that is all without a retention and else those not younger than it. |
| `LogBuffer.Store.Trim` | internal/logs/store.go:260-270 | On the live rows: keeps the newest. |
| `LogBuffer.Store.Compact` | internal/logs/store.go:240-258 | Never changes the live rows; afterwards the dead prefix is 0 or under 1024 and under half the slice. |
| `LogBuffer.Store.InsertLog` | internal/logs/store.go:38-64 | On the live rows: drop expired, append, keep the newest maxRows; the dead prefix stays bounded. |
| `LogBuffer.Store.SnapshotRows` | internal/logs/store.go:272-290 | Returns the retained rows and trims only when something expired. |
| `LogBuffer.Store.ClearLogs` | internal/logs/store.go:194-214 | Removes exactly the rows of the handler, keeps the order; deleted and remaining add up. |
| `LogBuffer.ErrorRatesForCredentials` | internal/logs/store.go:117-191 | Gives exactly the rates of a full filter-and-count over all rows whenever the early exit is safe (every cutoff is given and none lies before the exit), and always those of the rows newer than the exit. |
| `LogBuffer.CountOneMore` | internal/logs/store.go:150-181 | What a row adds to the counts of a credential, in the fields of the row: one exactly if handler and tier fit, the credential is named, and the row is its own and newer than its cutoff; one error more exactly if its status is 0 or at least 400. |
| `LogBuffer.LastCutoffWins` | internal/logs/store.go:126-133 | The cutoff of a credential is that of its last entry. |
| `LogBuffer.OldestIsEarliest` | internal/logs/store.go:128-140 | The early exit is the earliest cutoff after the last named entry without one, and there is none exactly when no entry after it has one. |
| `LogBuffer.CutoffsGivenIsSafe` | internal/logs/store.go:126-140 | If every named credential has a cutoff, the early exit is safe. |
| `LogBuffer.ExitLosesNothing` | internal/logs/store.go:148-152 | With a safe exit, the rows the scan does not reach count for nobody. |
| `LogBuffer.UnsafeExitLoses` | internal/logs/store.go:148-190 | Whenever the exit is not safe, for every minimum number of samples there is a log in time order for which the scanned rows give other rates than all rows. |
| `LogBuffer.ExitCanBeUnsafe` | internal/logs/store.go:128-140 | Such an exit exists: a credential without cutoff named before one with a cutoff. |
| `LogBuffer.QueryLogs` | internal/logs/store.go:66-115 | Returns exactly the page of matching rows, newest first, and the three status counts. |
| `RelayRetry.RetryTracker.Select` | internal/bridge/relay.go:118-160 | The credential is that of the first candidate that the scheduler grants, and exactly a refused fill-first credential is dropped. InOrder spells the candidates out. |
| `RelayRetry.InOrder` | internal/bridge/relay.go:118-160 | The first candidate that the scheduler grants is, in this order: the grace or session credential; on the first attempt the fill-first one and that of the content, where enabled and not asked for yet; then the scheduler's own choice. |
| `RelayRetry.RetryTracker.HandleRetryHintDecision` | internal/bridge/relay.go:263-303 | A grace wait exactly if the same credential is asked for and has not just been waited for; then no delay is recorded and the grace state names it, otherwise the delay is recorded and the grace state is cleared. The loop ends only when the client goes during the wait. |
| `RelayRetry.RetryTracker.HandleUpstreamError` | internal/bridge/relay.go:215-248 | For every failed reply: exactly the account, the grace wait, the result that ends the loop, if any, and the grace state afterwards. |
| `RelayRetry.RetryTracker.Try` | internal/bridge/relay.go:78-109 | The exact result for every outcome of an attempt: delivered, client gone, response not written, an error that is not retried, or another attempt; and what it records and remembers. |
| `RelayRetry.RunNext` | internal/bridge/relay.go:68-110 | An attempt that the world calls for after a run without a stop makes it a longer run. |
| `RelayRetry.RunDetermined` | internal/bridge/relay.go:68-110 | Scheduler, upstream and client decide the run: of two runs in the same world one is the beginning of the other, attempt by attempt in all that is recorded. |
| `RelayRetry.RunAccounts` | internal/bridge/relay.go:162-303 | In every run each attempt is recorded exactly once, unless the client has gone; a success is recorded exactly for a response that was delivered or whose client has gone, a refusal exactly for a refused credential, a failure with the status and, if the upstream asked for a pause and there is no grace wait, its delay. No two consecutive attempts on one credential both end in a grace wait. |
| `RelayRetry.RunPreferences` | internal/bridge/relay.go:118-160 | With a scheduler that honours a preferred credential: after a granted wait the same credential is tried if still offered, and later attempts go to the session's, to one that was waited for, or to the scheduler's choice, never by fill-first or content. |
| `RelayRetry.RelayUpstream` | internal/bridge/relay.go:49-116 | Whatever scheduler, upstream and client do: at most max(retries, 0) + 1 credentials are tried, each attempt is the one called for, the laws of RunAccounts and RunPreferences hold, and the loop ends without a stop only when the attempts are used up or nobody is offered. The client gets the response exactly when the last attempt was authenticated and its successful reply was written; in all other cases the stated error, or nothing if it has gone. |

## Left out

- Widths: the 64-bit binding sequence and the 32-bit node depth are unbounded, so their wrap-around is not modelled.
- Locks: a section under a mutex, and one round of a load-compute-compare-and-swap loop, is one atomic step. Updates lost between the codex publishers that hold the mutex and those that use compare-and-swap are not excluded.
- AffinityTable.Table.Bind: is stated without other steps between its halves; interleavings are covered by the protocol, of which `MarkBinding` and `CacheSet` are the steps.
- AffinityTable: one model's trie. Tries of different models share no nodes, and the shared cache is keyed by node, so its entries split by model; the `owner` field and the map of tries are left out, and so is the capacity setting.
- The Otter cache: an abstract map that may lose any entry at any time and report it any time later; an entry whose time is up counts as lost.
- Fingerprint elements: opaque 64-bit values with equality; their hashing is not part of this model.
- Go's `container/heap`: modelled by its known algorithm (`Init`, `Push`, `Fix`, `Remove`), since its source is not part of the repository.
- AffinityTrie.Trie.Insert: is factored into finding the node (`Place`) and binding it; the code repeats the two binding calls in each branch.
- The branches that rebuild a damaged candidate index: shown to be unreachable, so not carried out.
- ToolMessages: a part is reduced to what the rewriting looks at (trimmed text and signature, the keys present, names and ids after trimming); JSON errors of the rewriting are left out.
- Ids drawn by `uuid.NewString`: arbitrary strings given as a parameter, by message and call; that they are distinct is not assumed or needed.
- ToolPairing: the greedy matching finds an assignment whenever there is one if all responses have ids or none has (`PairsById`, `PairsByName`); with both kinds it can miss one (`GreedyCanMiss`), and then PairUpFacts describes it step by step. Ids for backends other than Claude are left out.
- SchemaCleaning: objects have no duplicate keys and unordered fields; a schema property that is itself named "properties" is treated as in the code, as a table of property names.
- RefreshFlight: one entry object; entries dropped by `InvalidateCredential` and `PruneStaleEntries` and made anew are not followed. The token cache, the database and the refresh itself are left out, as arbitrary work of the owner.
- RefreshFlight.NotStranded: states that a waiter can always be woken by steps that are enabled; that the owner's goroutine is scheduled is assumed of the runtime.
- CodexSnapshots: scores and error rates are arbitrary functions of the row during one operation, although the code reads the clock for each; the sort is only known to be descending and to keep the rows. Selection of codex credentials is left out as similar to the antigravity one.
- AntigravitySnapshots: scores as above; the reload of expired rows before selection and the normalisation of tier names are left out. Ids count as non-empty without trimming. Forgetting remembered throttles is left out: deadlines may shrink.
- Floats: reals. The floor that keeps tiny weights above zero is not needed over the reals; rounding is not modelled.
- FailureThrottle: durations are integers without overflow.
- LogBuffer: rows carry the fields that are counted or filtered by; string cloning, contexts and the filter predicates' definitions (arbitrary functions) are left out. Time does not run backwards.
- RelayRetry: the retries setting is read once; the fill-first, session and content caches are arbitrary answers of the world, and of their updates only the dropping of a failed or refused fill-first credential is recorded.
- HTTP clients, OAuth, SSE streaming, SQL, handlers, web UI, settings parsing, `core/gemini`, `core/opencodego` and the antigravity manager: plumbing, or near copies of what is modelled.
