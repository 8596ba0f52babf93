# Shopping-list CRDTs and the consistent-hashing ring, in Dafny

This project models the replicated core of a local-first shopping-list
system: the server's causal CRDTs written in Go, its consistent-hashing
ring, and the TypeScript client's counterparts. It then proves what each
operation promises.

- **Dots and the dot kernel** (`dot.dfy`, `dot_context.dfy`, `dot_kernel.dfy`).
  - A dot is a `(replica id, sequence number)` value.
  - A kernel maps dots to values and carries a causal context: the set of dots observed so far.
  - Each mutator changes the kernel in place and returns a delta kernel.
  - `Merge` folds another kernel in.
  - The class `DotKernel` runs the source's loops and is proved to compute the value-level functions `AddState`, `AddDelta`, `Merged` and the others.
  - Lemmas prove the kernel invariant, that each delta merged into the state it came from reproduces the new state, and the consequences of the merge rule.
- **Counters and flags** (`counters.dfy`).
  - The causal counter and the enable-wins flag are thin layers over the kernel.
  - Their unit tests are replayed as lemmas.
- **The observed-remove map and the shopping types** (`mock_crdt.dfy`, `ormap.dfy`, `shopping.dfy`).
  - The map's `Remove`, `Reset` and `Join` are methods over a map whose values are the max-register test double.
  - Each is specified by what it does to the map from keys to register values.
  - A shopping item holds two counters that share one context object. A shopping list holds a map of items that shares the list's context.
- **The ring** (`hashing.dfy`, `ring_view.dfy`).
  - The node id → token ring keeps its tokens sorted.
  - It mints collision-free tokens for a joining node, inserts a node with given tokens, and rebuilds itself from a token map.
  - A key belongs to the owner of the first token at or after the key's hash, wrapping around.
- **The client** (`client_dot.dfy`, `client_dot_kernel.dfy`, `socket_coordinator.dfy`).
  - Dots are written as `id:seq` strings, and the string codec round-trips.
  - The client kernel is keyed by those strings and uses its own join rule.
  - The coordinator covers the seed ring, the ring rebuild from a ring-view response, node URLs, and the preference list of a shopping list: the distinct owners met walking the ring from the list's hash.

SHA-1 is a parameter (`string -> Digest`). The server hash takes the first
8 digest bytes big-endian. Environment variables and wall-clock, socket and
random behaviour are parameters or left out (see below).

## Model

| member | source | states |
|---|---|---|
| Dots.NewDot | src/server/crdt/dot.go:10-12 | the dot has exactly the given id and sequence number; no check is made on the number |
| Dots.String | src/server/crdt/dot.go:14-16 | the rendering is `Dot{id `, the id verbatim, `, seq `, then at least one more character and a closing brace |
| Dots.StringRoundTrip | src/server/crdt/dot.go:14-16 | `Dot{id <id>, seq <seq>}` reads back to the dot, so distinct dots render differently |
| Dots.FieldsRoundTrip | src/server/crdt/dot.go:15 | the text between the braces reads back to its id and sequence number, whatever commas the id holds |
| DotContexts.NextSeq | src/server/crdt/dot_kernel.go:16 | `MakeDot(r)` issues the least positive sequence number of `r` not yet observed: every smaller one is observed, and it is not |
| DotContexts.DotContext.MakeDot | src/server/crdt/dot_kernel.go:16 | the issued dot belongs to `r`, was not observed before, and is the only dot added to the context |
| DotContexts.FreshFrom | src/server/crdt/dot_kernel.go:16 | the number found is unobserved for the replica, and every number from the starting point up to it is observed |
| DotContexts.DotContext.constructor | src/server/crdt/dot_kernel.go:11 | `NewDotContext` has observed nothing |
| DotContexts.DotContext.InsertDot | src/server/crdt/dot_kernel.go:26 | the context observes the dot in addition to what it had |
| DotContexts.DotContext.InsertDotCompact | src/server/crdt/dot_kernel.go:60 | the same observed set as `InsertDot`; compaction timing does not change it |
| DotContexts.DotContext.Compact | src/server/crdt/dot_kernel.go:63 | compaction keeps the observed set |
| DotContexts.DotContext.Join | src/server/crdt/generic/ormap.go:82 | the context observes the union of both observed sets |
| DotContexts.DotContext.Clone | src/server/crdt/generic/ormap.go:58 | a new, independent context observing the same dots |
| DotContexts.DotContext.Copy | src/server/crdt/generic/ormap.go:64 | the context is overwritten in place with the snapshot's dots |
| DotKernels.DotKernel.constructor | src/server/crdt/dot_kernel.go:8-13 | a new kernel holds no values and has a fresh, empty context |
| DotKernels.DotKernel.DotAdd | src/server/crdt/dot_kernel.go:15-19 | stores the value under the dot `MakeDot` issues; every other entry is unchanged and the context gains just that dot |
| DotKernels.DotKernel.Add | src/server/crdt/dot_kernel.go:21-29 | the same local change as `DotAdd`; the delta holds exactly `{dot ↦ value}` and its context is exactly `{dot}` |
| DotKernels.DotKernel.RemoveDot | src/server/crdt/dot_kernel.go:31-40 | a held dot is deleted and the delta's context is `{dot}`; an absent dot changes nothing and the delta is empty |
| DotKernels.DotKernel.RemoveValue | src/server/crdt/dot_kernel.go:42-54 | exactly the entries equal to the value are deleted; the delta holds no values and its context is exactly those dots |
| DotKernels.DotKernel.Reset | src/server/crdt/dot_kernel.go:56-66 | the values are emptied and the local context kept; the delta's context is exactly the dots held before |
| DotKernels.DotKernel.Merge | src/server/crdt/dot_kernel.go:68-84 | a local dot survives iff other's context lacks it; other's dot is adopted iff the local context lacks it; the contexts are united; this holds also when other is the kernel itself |
| DotKernels.MutatorsKeepWellFormed | src/server/crdt/dot_kernel.go:15-66 | every stored dot is in the kernel's own context, and every mutator's new state and delta keep this |
| DotKernels.MergeKeepsWellFormed | src/server/crdt/dot_kernel.go:68-84 | merging two well-formed kernels gives a well-formed kernel |
| DotKernels.MergeCommutative | src/server/crdt/dot_kernel.go:68-84 | two well-formed replicas merged in either order give the same kernel |
| DotKernels.MergeAssociative | src/server/crdt/dot_kernel.go:68-84 | for well-formed replicas, the grouping of merges does not matter, so any delivery order of deltas converges |
| DotKernels.MergedEntry | src/server/crdt/dot_kernel.go:70-81 | a merged entry comes from exactly one side: a local dot other's context lacks, or other's dot the local context lacks |
| DotKernels.AddDeltaReproducesState | src/server/crdt/dot_kernel.go:21-29 | merging `Add`'s delta into the kernel as it was gives the kernel after `Add` |
| DotKernels.RemoveDotDeltaReproducesState | src/server/crdt/dot_kernel.go:31-40 | merging `RemoveDot`'s delta into the kernel as it was gives the kernel after `RemoveDot` |
| DotKernels.RemoveValueDeltaReproducesState | src/server/crdt/dot_kernel.go:42-54 | merging `RemoveValue`'s delta into the kernel as it was gives the kernel after `RemoveValue` |
| DotKernels.ResetDeltaReproducesState | src/server/crdt/dot_kernel.go:56-66 | merging `Reset`'s delta into the kernel as it was gives the kernel after `Reset` |
| DotKernels.ConcurrentAddsSurvive | src/server/crdt/dot_kernel.go:68-84 | adds on two replicas that have not seen each other's new dot both survive a merge, each with its own value |
| DotKernels.MergeDropsSharedDots | src/server/crdt/dot_kernel.go:70-75 | a dot stored on both sides is absent after the merge |
| DotKernels.MergeWithCopyEmpties | src/server/crdt/dot_kernel.go:70-81 | merging a kernel with an identical copy leaves no values and the same context |
| DotKernels.MergeIdempotentIffEmpty | src/server/crdt/dot_kernel.go:68-84 | merging with a copy changes nothing exactly when the kernel stores nothing |
| DotKernels.MergeIsCanonicalWithoutSharedDots | src/server/crdt/dot_kernel.go:70-81 | the coded merge equals the canonical dot-store join except on dots both sides store |
| DotKernels.CanonicalMergeIdempotent | src/server/crdt/dot_kernel.go:68 | the canonical join (drop a local dot only when other has seen it and no longer stores it) is idempotent |
| DotKernels.CanonicalMergeCommutative | src/server/crdt/dot_kernel.go:68 | the canonical join is commutative on replicas that agree on the value of every shared dot |
| DotKernels.CanonicalMergeAssociative | src/server/crdt/dot_kernel.go:68 | the canonical join is associative on well-formed replicas |
| DotKernels.CanonicalEntry | src/server/crdt/dot_kernel.go:68 | a canonical join of well-formed kernels is well formed; an entry survives from the local side unless other removed it, and is adopted from other only when unseen |
| Counters.Empty | src/server/crdt/generic/ccounter_test.go:8-19 | a new counter or flag stores nothing and is well formed |
| Counters.CCounter.constructor | src/server/crdt/generic/ccounter_test.go:8-19 | a new counter has the given id, stores nothing and has its own fresh context |
| Counters.CCounter.SetContext | src/server/crdt/shopping/shopping_item.go:19-20 | the counter records its dots in the given, possibly shared, context and keeps its values |
| Counters.SumInsert | src/server/crdt/generic/ccounter_test.go:21-36 | storing an amount under a new dot adds that amount to the counter's read |
| Counters.SumDisjointUnion | src/server/crdt/generic/ccounter_test.go:131-146 | the read of two entry sets with no dot in common is the sum of their reads |
| Counters.ReadAfterAdd | src/server/crdt/generic/ccounter_test.go:21-72 | `Inc(n)`/`Dec(n)` move the read by exactly `n`/`-n` |
| Counters.ReadAfterReset | src/server/crdt/generic/ccounter_test.go:94-129 | after `Reset` the counter reads 0, and its delta carries no value |
| Counters.ReadOfIndependentMerge | src/server/crdt/generic/ccounter_test.go:131-146 | joining replicas that have seen none of each other's dots adds their reads |
| Counters.CCounterIncScenario | src/server/crdt/generic/ccounter_test.go:21-36 | `Inc(5)` reads 5 and its delta rebuilds the state in an empty replica |
| Counters.CCounterIncDecScenario | src/server/crdt/generic/ccounter_test.go:74-92 | inc 10 and dec 4 reads 6; inc 7 and dec 7 reads 0 |
| Counters.CCounterConcurrentScenario | src/server/crdt/generic/ccounter_test.go:165-181 | two replicas adding 5 and 10 both read 15 after exchanging deltas |
| Counters.EnableDisableRead | src/server/crdt/generic/ewflag_test.go:17-59 | an enabled flag reads true and a disabled one false |
| Counters.EnableDeltaReproducesState | src/server/crdt/generic/ewflag_test.go:17-36 | joining the enable delta into the flag as it was gives the enabled flag |
| Counters.EWFlagEnableScenario | src/server/crdt/generic/ewflag_test.go:17-36 | a replica receiving the enable delta reads true |
| Counters.EWFlagCommutativityScenario | src/server/crdt/generic/ewflag_test.go:97-118 | two enables applied in either order give the same flag, which reads true |
| Counters.EWFlagRejoinDisables | src/server/crdt/generic/ewflag_test.go:80-95 | under the coded kernel merge, applying the same enable delta twice leaves the flag disabled |
| Counters.EWFlagRejoinCanonical | src/server/crdt/generic/ewflag_test.go:80-95 | under the canonical join the same scenario keeps the flag enabled |
| Counters.CCounter.Inc | src/server/crdt/dot_kernel.go:21-29 | the counter's kernel takes `Add(id, n)`; the delta is a counter holding exactly that delta |
| Counters.CCounter.Dec | src/server/crdt/dot_kernel.go:21-29 | the counter's kernel takes `Add(id, -n)`; the delta is a counter holding exactly that delta |
| Counters.CCounter.Reset | src/server/crdt/dot_kernel.go:56-66 | the counter's kernel is reset; the delta carries the reset delta |
| Counters.CCounter.Join | src/server/crdt/dot_kernel.go:68-84 | the counter's kernel is merged with other's |
| MockCRDTs.Max | src/server/crdt/generic/ormap_test.go:56-60 | the join keeps the larger value: at least both, and one of them |
| MockCRDTs.MockCRDT.constructor | src/server/crdt/generic/ormap_test.go:18-24 | a new register has the given id, value 0 and a fresh empty context |
| MockCRDTs.MockCRDT.SetContext | src/server/crdt/generic/ormap_test.go:34-36 | the register is bound to the given context and keeps its value |
| MockCRDTs.MockCRDT.Inc | src/server/crdt/generic/ormap_test.go:42-47 | the value grows by the amount and the delta carries the new value |
| MockCRDTs.MockCRDT.Reset | src/server/crdt/generic/ormap_test.go:49-54 | the value becomes 0 and the delta carries the value before the reset |
| MockCRDTs.MockCRDT.Join | src/server/crdt/generic/ormap_test.go:56-60 | the value becomes the larger of the two and the context is untouched |
| MockCRDTs.MockCRDT.NewEmpty | src/server/crdt/generic/ormap_test.go:62-64 | a new register with the given id, value 0 and a fresh empty context; it is empty |
| MockCRDTs.MockCRDT.IsEmpty | src/server/crdt/generic/ormap_test.go:73-75 | an empty register holds what a new one starts with, so joining it into any non-negative register changes nothing |
| MockCRDTs.MockCRDT.Clone | src/server/crdt/generic/ormap_test.go:66-71 | a new register with the same id and value and its own copy of the context |
| ORMaps.ORMap.constructor | src/server/crdt/generic/ormap.go:11-17 | a new map has the given id, no entries and a fresh, empty context |
| ORMaps.ORMap.SetContext | src/server/crdt/generic/ormap.go:23-25 | the map's context is replaced and the nested values keep theirs |
| ORMaps.ORMap.Get | src/server/crdt/generic/ormap.go:27-32 | a present key gives its value and an absent key gives nothing; `Get` reads only |
| ORMaps.GetDoesNotCreate | src/server/crdt/generic/ormap.go:27-32 | on a new map, `Get` returns nothing and adds no key |
| ORMaps.Remove | src/server/crdt/generic/ormap.go:34-44 | a present key's register is reset and the key deleted; an absent key changes nothing; the delta has the map's id, no entries and an empty context |
| ORMaps.Reset | src/server/crdt/generic/ormap.go:46-55 | every register reads 0 and every key is kept; the delta has no entries |
| ORMaps.Join | src/server/crdt/generic/ormap.go:57-83 | the keys are the union of both sides; each register holds `JoinValues`; the context object is kept and ends as the union of both contexts; local keys keep their registers; new keys get fresh registers bound to the map's context |
| ORMaps.JoinLocalPass | src/server/crdt/generic/ormap.go:58-65 | the first pass joins each local register only with an empty one (max with 0) and restores the context after each |
| ORMaps.JoinOtherPass | src/server/crdt/generic/ormap.go:67-82 | the second pass joins each of other's registers into the local one or into a new one, restoring the context after each key, then joins the contexts |
| ORMaps.JoinPresentKey | src/server/crdt/generic/ormap.go:68-70 | for a key the map holds, the local register takes the max with other's and the context is restored |
| ORMaps.JoinAbsentKey | src/server/crdt/generic/ormap.go:72-78 | for a key the map lacks, a fresh register bound to the map's context takes other's value and the context is restored |
| ORMaps.JoinValuesFloored | src/server/crdt/generic/ormap.go:58-80 | the first pass does not change what the second computes |
| ORMaps.JoinValuesBounds | src/server/crdt/generic/ormap.go:57-83 | every key of either side is present; no register ends below 0 or below either side's register, and each equals 0 or one side's register |
| ORMaps.JoinValuesCommutative | src/server/crdt/generic/ormap_test.go:266-287 | joins in either order give equal register maps |
| ORMaps.JoinValuesAssociative | src/server/crdt/generic/ormap.go:57-83 | the register-map join is associative |
| ORMaps.JoinValuesAt | src/server/crdt/generic/ormap.go:57-83 | at each key the join is the larger of the two floored registers |
| ORMaps.JoinValuesIdempotentIff | src/server/crdt/generic/ormap_test.go:254-264 | joining with a copy changes nothing exactly when no register is negative |
| ORMaps.ORMapJoinScenario | src/server/crdt/generic/ormap_test.go:221-236 | `{key1: 5}` joined with `{key1: 10, key2: 5}` gives `{key1: 10, key2: 5}` |
| ORMaps.ORMapJoinEmptyAndSelfScenario | src/server/crdt/generic/ormap_test.go:238-264 | joining with an empty map or with a copy leaves `{key1: 5}` unchanged |
| Shopping.StaleContextAdoptsNothing | src/server/crdt/shopping/shopping_item.go:78-84 | without the restore, the second counter join would adopt none of other's entries |
| Shopping.RestoredContextAdopts | src/server/crdt/shopping/shopping_item.go:78-84 | with the context restored, the second join adopts every entry of other's not yet seen |
| Shopping.ShoppingItem.constructor | src/server/crdt/shopping/shopping_item.go:14-30 | both zero counters are bound to the item's single fresh context object |
| Shopping.ShoppingItem.SetContext | src/server/crdt/shopping/shopping_item.go:56-60 | the item and both counters are bound to the same given context; the values stay |
| Shopping.ShoppingItem.NewEmpty | src/server/crdt/shopping/shopping_item.go:62-64 | a new item with the given crdt id, blank item id and name, and zero counters |
| Shopping.ShoppingItem.Reset | src/server/crdt/shopping/shopping_item.go:66-76 | both counters are reset and the context kept; the delta is a blank item whose context is the dots the two counters held |
| Shopping.ShoppingItem.Join | src/server/crdt/shopping/shopping_item.go:78-88 | each counter is merged with other's against the item's pre-join context; the item's context ends as the union of both; ids and name are constants |
| Shopping.ShoppingList.constructor | src/server/crdt/shopping/shopping_list.go:12-23 | an empty item map with the list's id, whose context is the list's own fresh context |
| Shopping.ShoppingList.SetContext | src/server/crdt/shopping/shopping_list.go:41-44 | the list and its item map are bound to the same context; the items are unchanged; ids, name and the items object are constants |
| Hashing.HashKey | src/server/ringview/ring_view.go:139-142 | the hash is the first 8 digest bytes read big-endian, so it lies below 2^64 |
| Hashing.BigEndianRoundTrip | src/server/ringview/ring_view.go:141 | encoding the big-endian value of a byte string in as many bytes gives the string back |
| Hashing.ToBigEndianRoundTrip | src/server/ringview/ring_view.go:141 | every value below 256^n survives an n-byte big-endian encoding |
| Hashing.ClientHashKey | src/client/lib/coordination/socket-coordinator.ts:131-145 | fails exactly when the space is 0; otherwise lies below the space |
| Hashing.ClientHashKeyDefault | src/client/lib/coordination/socket-coordinator.ts:132-142 | with the default space 65536 the client hash is digest bytes 6 and 7, big-endian |
| RingViews.RingView.constructor | src/server/ringview/ring_view.go:21-29 | an empty ring with three tokens per node, satisfying the ring invariant |
| RingViews.RingView.Known | src/server/ringview/ring_view.go:62-66 | the scan finds the node iff it is listed |
| RingViews.RingView.JoinToRing | src/server/ringview/ring_view.go:57-95 | a listed node changes nothing and gets no tokens; a new node gets exactly `nTokens` distinct tokens, none already on the ring, each the first free attempt `nodeId#i#counter`; each maps to the node; tokens and nodes are re-sorted; the invariant holds |
| RingViews.RingView.MintTokens | src/server/ringview/ring_view.go:70-88 | the minting loop chooses `count` tokens, each the first free attempt at its index, binding each to the node as it goes |
| RingViews.RingView.FreshHash | src/server/ringview/ring_view.go:75-83 | the retry loop returns the hash of the first attempt not on the ring |
| RingViews.MintedMeans | src/server/ringview/ring_view.go:70-88 | minted tokens are pairwise distinct, none was on the ring before, and each was the first free attempt at its index |
| RingViews.MintedDistinct | src/server/ringview/ring_view.go:75-86 | the minted tokens are pairwise distinct |
| RingViews.MintedFresh | src/server/ringview/ring_view.go:75-83 | no minted token was on the ring before the join |
| RingViews.MintedFirstUnused | src/server/ringview/ring_view.go:75-86 | each minted token is the first attempt at its index free of the ring and of the earlier tokens |
| RingViews.JoinMovesOnlyKeysOfNewTokens | src/server/ringview/ring_view.go:70-92 | minimal disruption: after a join, a hash whose successor is an old token had that successor before, with the same owner; only keys landing on a new token change owner |
| RingViews.RingView.ResortedValid | src/server/ringview/ring_view.go:90-92 | after a new node and its tokens are added and both lists re-sorted, the ring invariant holds |
| RingViews.RingView.AddNode | src/server/ringview/ring_view.go:98-117 | a listed node changes nothing; otherwise every given token maps to the node, overwriting any owner, and tokens and nodes are re-sorted; the invariant holds |
| RingViews.AddNodesCommute | src/server/ringview/ring_view.go:109-116 | two new nodes added in either order give the same token list and node list |
| RingViews.AddNodeOwnersCommuteIff | src/server/ringview/ring_view.go:109-111 | the token maps agree in both orders exactly when the nodes are equal or share no token; on a shared token the node added last owns it |
| RingViews.RingView.Lookup | src/server/ringview/ring_view.go:119-137 | fails with `""` exactly on an empty ring; otherwise answers the owner of the token the key's hash lands on |
| RingViews.SearchLandsOnSuccessor | src/server/ringview/ring_view.go:128-134 | the binary search, wrapped to 0 past the end, lands on the smallest token at or after the hash, or on the smallest token |
| RingViews.Search | src/server/ringview/ring_view.go:128 | `sort.Search` returns the least index whose token is at least the hash |
| RingViews.SuccessorUnique | src/server/ringview/ring_view.go:127-136 | a hash lands on exactly one token |
| RingViews.RingView.GetTokenToNode | src/server/ringview/ring_view.go:145-154 | the copy equals the token map |
| RingViews.NewFromTokenMap | src/server/ringview/ring_view.go:32-54 | a new valid ring holding the given map, its tokens the map's keys ascending and each once, its nodes the distinct owners ascending |
| RingViews.CollectTokens | src/server/ringview/ring_view.go:39-43 | the first loop lists every token once, rebuilds the map and gathers its owners |
| RingViews.ListOf | src/server/ringview/ring_view.go:45-47 | the second loop lists each owner once |
| Sorting.SortKeepsElements | src/server/ringview/ring_view.go:50-51 | `sort.Slice` under a total order yields a sorted permutation of its input with the same elements |
| Sorting.SortedUnique | src/server/ringview/ring_view.go:50-51 | two sorted permutations of the same list are equal, so the sorted order does not depend on the order of the input |
| ClientDots.ToKey | src/client/types/crdt/generic/dot.ts:12-14 | the key is the id, a colon, then the decimal sequence number |
| Util.IntToDecimalParses | src/client/types/crdt/generic/dot.ts:13-18 | the decimal rendering of a sequence number parses back to that number |
| Util.LastIndexOfSplit | src/client/types/crdt/generic/dot.ts:17 | the last colon of `id:digits` is the one `toKey` wrote, whatever colons the id holds |
| ClientDots.FromKey | src/client/types/crdt/generic/dot.ts:16-19 | the id is the text before the last colon and the number is the suffix read base 10; `None` (no usable dot) exactly when the key has no colon or the suffix reads as NaN, that is, after any leading white space it is not an optional sign followed by a digit |
| ClientDots.SkipWhiteSpaceDropsPrefix | src/client/types/crdt/generic/dot.ts:18 | `parseInt` drops only the white space in front of the text: the rest is a suffix that does not start with white space |
| ClientDots.SkipWhiteSpaceBefore | src/client/types/crdt/generic/dot.ts:18 | white space in front of a text that does not start with white space is exactly what is skipped |
| ClientDots.WhiteSpaceBeforeNumber | src/client/types/crdt/generic/dot.ts:16-19 | a key with white space after its last colon reads back to the dot, but is not that dot's key |
| ClientDots.FromKeyToKey | src/client/types/crdt/generic/dot.ts:12-19 | every dot reads back from its key, whatever colons its id holds |
| ClientDots.ToKeyInjective | src/client/types/crdt/generic/dot.ts:12-14 | two dots have the same key iff they are equal |
| ClientDots.ToKeyCanonical | src/client/types/crdt/generic/dot.ts:12-19 | every key `toKey` writes is canonical and stands for its dot |
| ClientDots.LeadingZerosNotCanonical | src/client/types/crdt/generic/dot.ts:16-19 | `a:07` reads back to `a:7`, but is not that dot's key |
| ClientDotKernels.KeyOfDot | src/client/types/crdt/dot-kernel.ts:27 | a stored key stands for the dot it was written from |
| ClientDotKernels.FromKeyOfKey | src/client/types/crdt/dot-kernel.ts:60 | `Dot.fromKey` reads every stored key back to its dot |
| ClientDotKernels.ClientDotKernel.constructor | src/client/types/crdt/dot-kernel.ts:8-11 | a new kernel holds nothing and has a fresh, empty context |
| ClientDotKernels.ClientDotKernel.SetContext | src/client/types/crdt/dot-kernel.ts:17-19 | the kernel is bound to the given context and its values stay |
| ClientDotKernels.ClientDotKernel.DotAdd | src/client/types/crdt/dot-kernel.ts:25-29 | stores the value under the key of the dot the context issues; every other entry is unchanged |
| ClientDotKernels.ClientDotKernel.Add | src/client/types/crdt/dot-kernel.ts:31-39 | the same local change; the delta holds exactly the new entry and its context exactly the new dot |
| ClientDotKernels.ClientDotKernel.RemoveDot | src/client/types/crdt/dot-kernel.ts:41-51 | a held key is deleted and the delta's context is `{dot}`; otherwise nothing changes and the delta is empty |
| ClientDotKernels.ClientDotKernel.RemoveValue | src/client/types/crdt/dot-kernel.ts:54-66 | exactly the entries equal to the value are deleted; the delta holds no values and its context is exactly their dots |
| ClientDotKernels.ClientDotKernel.DeleteMatching | src/client/types/crdt/dot-kernel.ts:57-62 | the loop removes exactly the matching entries and inserts exactly their dots |
| ClientDotKernels.ClientDotKernel.Reset | src/client/types/crdt/dot-kernel.ts:68-78 | the values are cleared and the local context kept; the delta's context is exactly the dots held before |
| ClientDotKernels.ClientDotKernel.Join | src/client/types/crdt/dot-kernel.ts:81-99 | the kernel becomes `Joined` of both: other's removals dropped, other's missing keys adopted, local values kept on shared keys, contexts united |
| ClientDotKernels.ClientDotKernel.DropRemoved | src/client/types/crdt/dot-kernel.ts:82-89 | deletes a local entry iff other's context knows its dot and other holds no entry for it |
| ClientDotKernels.ClientDotKernel.AdoptMissing | src/client/types/crdt/dot-kernel.ts:91-96 | adds every entry of other's under a key missing locally and leaves the local entries unchanged |
| ClientDotKernels.ClientDotKernel.Clone | src/client/types/crdt/dot-kernel.ts:101-108 | a fresh kernel with a fresh context holding the same values and dots |
| ClientDotKernels.JoinedEntries | src/client/types/crdt/dot-kernel.ts:80-99 | a key is in the result iff other holds it, or it is local and other has not removed it; a shared key keeps the local value, contrary to the comment on line 80; an adopted key takes other's |
| ClientDotKernels.MutatorsKeepWellFormed | src/client/types/crdt/dot-kernel.ts:25-78 | every stored key stands for a dot in the kernel's own context, and every mutator and delta keeps this |
| ClientDotKernels.JoinKeepsWellFormed | src/client/types/crdt/dot-kernel.ts:81-99 | joining two well-formed kernels gives a well-formed kernel |
| ClientDotKernels.NextKeyIsNew | src/client/types/crdt/dot-kernel.ts:25-29 | the key `dotAdd` writes is not held already |
| ClientDotKernels.AddDeltaReproducesState | src/client/types/crdt/dot-kernel.ts:31-39 | joining `add`'s delta into the kernel as it was gives the kernel after `add` |
| ClientDotKernels.RemoveDotDeltaReproducesState | src/client/types/crdt/dot-kernel.ts:41-51 | joining `removeDot`'s delta into the kernel as it was gives the kernel after `removeDot` |
| ClientDotKernels.RemoveValueDeltaReproducesState | src/client/types/crdt/dot-kernel.ts:54-66 | joining `removeValue`'s delta into the kernel as it was gives the kernel after `removeValue` |
| ClientDotKernels.ResetDeltaReproducesState | src/client/types/crdt/dot-kernel.ts:68-78 | joining `reset`'s delta into the kernel as it was gives the kernel after `reset` |
| ClientDotKernels.RemovedDotReappears | src/client/types/crdt/dot-kernel.ts:91-96 | a dot removed locally (and recorded in the context) comes back, with other's value, on a join with a replica that still holds it |
| ClientDotKernels.RemovedDotStaysRemoved | src/client/types/crdt/dot-kernel.ts:85-96 | with adoption by context, a removed dot stays removed |
| ClientDotKernels.JoinedByContextAgrees | src/client/types/crdt/dot-kernel.ts:91-96 | the two adoption rules agree whenever the local context has seen none of other's new keys |
| SocketCoordinators.SeedTokensIncrease | src/client/lib/coordination/socket-coordinator.ts:25 | with a hash space of at least n + 1, the seed tokens strictly increase |
| SocketCoordinators.SeedRingOwners | src/client/lib/coordination/socket-coordinator.ts:23-29 | then each seed is found under its own token |
| SocketCoordinators.SocketCoordinator.Seeded | src/client/lib/coordination/socket-coordinator.ts:13-29 | the node ids are the seeds; each seed is written under its token, a later one overwriting an equal token; the tokens are the seed tokens, ascending |
| SocketCoordinators.SocketCoordinator.SeedLoop | src/client/lib/coordination/socket-coordinator.ts:23-29 | the `forEach` builds the seed ring and keeps the pushed tokens sorted |
| SocketCoordinators.SocketCoordinator.Create | src/client/lib/coordination/socket-coordinator.ts:13-16 | construction fails exactly on an empty seed list |
| SocketCoordinators.SocketCoordinator.ApplyRingView | src/client/lib/coordination/socket-coordinator.ts:43-53 | a response with a token map replaces the ring; the tokens become its keys ascending, each once; the node ids become its distinct owners; any other response changes nothing and reports false |
| SocketCoordinators.KeysOf | src/client/lib/coordination/socket-coordinator.ts:47 | `Object.keys` lists each token of the ring once |
| SocketCoordinators.TokensOfUnique | src/client/lib/coordination/socket-coordinator.ts:47 | there is one ascending duplicate-free list of a ring's tokens |
| SocketCoordinators.SliceIndex | src/client/lib/coordination/socket-coordinator.ts:61-62 | a slice boundary is kept when in range, counted from the end when negative, and clamped |
| SocketCoordinators.JsNumber | src/client/lib/coordination/socket-coordinator.ts:62 | `Number("")` is 0 and a string of decimal digits is its value |
| SocketCoordinators.IdToUrl | src/client/lib/coordination/socket-coordinator.ts:60-67 | the URL starts with `ws://` and ends with `/ws`; when the id has a colon, the host is the id's text before its first colon, followed by a colon |
| SocketCoordinators.IdToUrlHostPort | src/client/lib/coordination/socket-coordinator.ts:60-67 | `host:port` becomes `ws://host:<port + 3000>/ws` |
| SocketCoordinators.IdToUrlWithoutColon | src/client/lib/coordination/socket-coordinator.ts:60-67 | an id without a colon loses its last character as host, and the whole id is read as the port |
| SocketCoordinators.FirstFrom | src/client/lib/coordination/socket-coordinator.ts:155-161 | the first index from `from` whose token is at least the hash, or 0 when there is none |
| SocketCoordinators.SocketCoordinator.FindStart | src/client/lib/coordination/socket-coordinator.ts:155-161 | the loop with its `break` finds that start index |
| SocketCoordinators.Walk | src/client/lib/coordination/socket-coordinator.ts:168-170 | step `k` of the walk meets the owner of token `(start + k) mod length` |
| SocketCoordinators.SocketCoordinator.CollectOwners | src/client/lib/coordination/socket-coordinator.ts:163-178 | the loop returns the first `size` distinct non-empty owners of the whole walk |
| SocketCoordinators.SocketCoordinator.GetResponsibleNodes | src/client/lib/coordination/socket-coordinator.ts:147-179 | fails exactly when the space is 0; otherwise returns the preference list for the hash of `shoppinglist_<listId>` |
| SocketCoordinators.DistinctNonEmptyMeans | src/client/lib/coordination/socket-coordinator.ts:172-175 | the collected ids have no repeats and no empty id, and are exactly the non-empty ids met |
| SocketCoordinators.DistinctNonEmptyPrefix | src/client/lib/coordination/socket-coordinator.ts:167-176 | walking further only appends ids |
| SocketCoordinators.WalkMeetsEveryToken | src/client/lib/coordination/socket-coordinator.ts:167-170 | a full walk meets every token's owner |
| SocketCoordinators.PreferenceListOwners | src/client/lib/coordination/socket-coordinator.ts:163-178 | the list has at most `size` ids, no repeats and no empty id, and each owns a token |
| SocketCoordinators.PreferenceListComplete | src/client/lib/coordination/socket-coordinator.ts:167-176 | when no more than `size` nodes own tokens, every one of them is listed |
| SocketCoordinators.PreferenceListStartsAtOwner | src/client/lib/coordination/socket-coordinator.ts:155-176 | the owner of the start token, when there is one, heads the list |
| SocketCoordinators.ReducedHashStartsAtZero | src/client/lib/coordination/socket-coordinator.ts:142 | when every token is at or above the space, every list starts its walk at index 0 |
| SocketCoordinators.ServerStartIsSuccessor | src/server/ringview/ring_view.go:127-134 | with the server's own hash, the walk starts at the token `Lookup` answers with |

## Left out

- SHA-1 is a parameter. Only the 8-byte big-endian truncation and the client's modulo step are modelled.
- The `sync.RWMutex` of the ring and every lock operation are not modelled; all operations are sequential.
- The `String`/`ToString` renderings of the map and the ring are not modelled. `Dot.String` is.
- Trivial accessors are not modelled as members. This covers `Context`, `CRDTID`, `Name`, `ItemID`, `Quantity`, `Acquired` and `Items`, and the client's `getContext`/`getValues`. The fields they return are constants, or the fields the contracts name.
- The CRDT interface is a Dafny trait in spirit, but traits are not used. The map's value-dependent operations (`Remove`, `Reset`, `Join`) are modelled with the max-register test double as value type.
- `Apply`, `Keys` and `Clone` of the OR-Map are exercised by its tests but do not exist in the map's source. They are not modelled.
- ORMaps.ORMap.SetContext: follows the source, which does not rebind the nested values. The map's tests expect it to.
- ORMaps.ORMap.Get: follows the source, which returns nothing for an absent key. The map's tests expect the key to be created (see `GetDoesNotCreate`).
- ORMaps.Remove: requires each key to hold its own register object. The source keeps this, since every register it creates is new (ormap.go:73) and `Join` preserves it (`Distinct` in Join's contract). A map whose keys share a register, where resetting the removed key's register would also zero the other keys, is not modelled.
- ORMaps.Join: requires distinct maps whose values share no register object, and each key holding its own register. Joining a map with itself, or maps sharing registers, is not modelled.
- Shopping.ShoppingItem.Join: requires `other`'s acquired counter not to share its kernel with this item's quantity counter. Items that alias their counters are not modelled.
- Shopping.ShoppingItem.SetContext: requires the two counters to be distinct objects, as every constructed item has them.
- The item methods of `ShoppingList` beyond construction and `SetContext` are not part of its source.
- The causal context's source (`DotContext`) is not part of this model. It is modelled by its meaning, a set of observed dots. Compaction and the base-plus-exceptions encoding are not modelled.
- The causal counter and flag sources are not part of this model. They are modelled as thin layers over the kernel, pinned by their tests.
- RingViews.RingView.JoinToRing: the source retries hashes without limit. The model requires that some bounded number of attempts per token gives more distinct hashes than the ring can hold. Termination without that bound is not modelled.
- RingViews.RingView.JoinToRing: the source appends each minted token to `tokens` inside its loop; the model appends all three after the loop. Both then sort, so the result is the same.
- Go's `sort.Slice` is modelled as a stable insertion sort. Only its result, a sorted permutation, is relied on.
- SocketCoordinators.SocketCoordinator.Seeded: the source computes the seed tokens in floating point as `floor((index + 1) * (space / (n + 1)))`. The model uses the exact `floor((index + 1) * space / (n + 1))`, which can differ by one where rounding intervenes.
- The hash space and preference-list size come from environment variables parsed with `Number.parseInt`. Here they are integer parameters, and a non-numeric value (NaN) is not modelled.
- The conversion of 64-bit tokens to JavaScript numbers (`Object.keys(...).map(Number)`) loses precision above 2^53. Tokens here are exact integers.
- The client hash's `Number(...)` conversion is exact here for the same reason.
- SocketCoordinators.JsNumber: models `Number(s)` only on the empty string, an optional sign followed by decimal digits, and everything else as NaN. Whitespace, hexadecimal, exponents and decimals are not modelled. Numbers are rendered with `IntToDecimal`.
- SocketCoordinators.SocketCoordinator.ApplyRingView: the order of `knownNodeIds` (`Object.values` insertion order) is not modelled, only its contents without repeats.
- SocketCoordinators.SocketCoordinator.CollectOwners: `seen` is a plain object in the source. An id equal to an inherited property name such as `constructor` would read as already seen. The model uses a set.
- The client kernel's `===` comparison of values is modelled as value equality.
- `splitOnceFromEnd` is not part of this model. `Dot.fromKey` is modelled as splitting at the last colon.
- ClientDots.FromKey: the source never refuses a key; it builds a dot whose sequence number is `NaN` when the suffix does not parse (dot.ts:18), and its result on a key without a colon depends on `splitOnceFromEnd`. The model returns `None` for both, standing for that unusable dot.
- `connectSocket`, `getRandomSocket`, `getBestSocketForList`, the async sending in `updateMembership`, and all console output are not modelled. The response handler is modelled as `ApplyRingView` on an optional token map.
- The server's node handlers, storage, gossip and process bootstrap, the protobuf bindings, and the client UI are outside the modelled core.

## Findings

| source | as written | input that shows it | evidently intended | confidence | as-written member | corrected member |
|---|---|---|---|---|---|---|
| src/server/crdt/dot_kernel.go:70-75 | a local dot is deleted whenever other's context holds it, even when other still stores it | merge a kernel holding `{(a,1) ↦ true}`, context `{(a,1)}`, with an identical copy: the values become empty | drop a local dot only when other has seen it and no longer stores it, making the merge idempotent (the flag idempotence test expects this) | high, not executed | DotKernels.MergeWithCopyEmpties | DotKernels.CanonicalMergeIdempotent |
| src/client/types/crdt/dot-kernel.ts:91-96 | other's entries are adopted whenever their key is missing locally, whatever the local context records | `removeDot(a:1)` on a kernel holding it, then `join` with a replica still holding `a:1`: the entry comes back | adopt an entry only when its dot is not in the local context, as the server kernel does | medium, not executed | ClientDotKernels.RemovedDotReappears | ClientDotKernels.RemovedDotStaysRemoved |
| src/client/lib/coordination/socket-coordinator.ts:142 | the key hash is reduced modulo the hash space, while the server's tokens are full 64-bit hashes | space 65536 and tokens `[100000, 200000]`: every list starts its walk at index 0 | compare the server's full 64-bit hash against the tokens, so the walk starts at the token `Lookup` answers with | medium, not executed | SocketCoordinators.ReducedHashStartsAtZero | SocketCoordinators.ServerStartIsSuccessor |
