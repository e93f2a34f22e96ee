# Two consistent-hashing node selectors, modelled and verified in Dafny

This project models two key-to-node selectors from a Go consistent-hashing repository.
Each selector is modelled in its own module, and properties are proved about each.

- **Ketama ring** (`ketama.dfy`, module `Ketama`).
  - `NewRing` expands every real node of weight `w` into `40 * w` replica labels, each of the form `"<label>-<j>"`.
  - It takes the 16-byte MD5 digest of each replica label and cuts it into four little-endian 32-bit words (`alignHash`). Each word becomes one virtual node that carries the real node's label, weight and data.
  - It then sorts the virtual nodes by hash.
  - `Get` hashes the key (word 0 of its digest) and runs a hand-written binary search with strict comparisons on both sides. It wraps around to virtual node 0.
  - The ring is a class whose array field the constructor fills in place. The fill loop is split into three parts:
    - `NewRing` loops over the real nodes.
    - `PlaceReplicas` loops over the replicas.
    - `PlaceWords` loops over the four words.
  - The sort is an in-place insertion sort, `SortByHash` with `InsertLast`.
  - Everything is specified against the value-level functions `Replicas` and `Expanded`.
- **Rendezvous selector** (`rdv.dfy`, module `Rendezvous`).
  - A class with a label-to-slot map `nodes` and two parallel sequences, `nodeStr` (labels) and `nodeHashValue` (label hashes).
  - `Lookup` scores every slot with `xorshiftMult64(hash(key) ^ nodeHash)` on 64-bit words (`bv64`), compared as unsigned integers. It returns the earliest slot with the maximal score.
  - `Add` appends.
  - `Remove` swap-removes with the last slot.

MD5 is a function-valued parameter `md5: string -> Digest`, where `Digest` is a 16-byte sequence. The injected string hasher of the rendezvous selector is a `const hash: string -> bv64` of the class. The `"%s-%d"` label format is modelled concretely: the label, a `-`, and the decimal digits of `j`.

Notes on the Go code's behaviour, which the model keeps:
- Ketama's `Get` uses a strict test on both sides of its binary search, so a key whose hash equals a virtual node's hash does not land on that node (see Findings).
- The one-entry shortcut of `Get` applies to a ring of one *virtual* node, not to one real node.
- An empty ring gives `None` (Go's `nil`).
- `Remove` looks an absent label up as slot 0, Go's zero value for a missing map key (the Go `Remove` then faults before it changes anything, see Findings); the corrected remove then removes slot 0.

## Model

| member | source | states |
|---|---|---|
| Ketama.NewNode | go_ketama_consistent_hash/ketama.go:20-38 | the new node's `Key`, `Data` and `Weight` accessors return the given label, data and weight; its hash is zero |
| Ketama.LessIsStrictWeakOrder | go_ketama_consistent_hash/ketama.go:45 | `Less` (by hash alone) is irreflexive and transitive, and two nodes are incomparable exactly when their hashes are equal |
| Ketama.AlignHashBytes | go_ketama_consistent_hash/ketama.go:53-59 | the four bytes of word `align` (0..3), low to high, are digest bytes `4*align .. 4*align+3`; every index read stays inside the 16-byte digest |
| Ketama.LittleEndianWord | go_ketama_consistent_hash/ketama.go:55-58 | four bytes placed at bits 0, 8, 16 and 24 form a 32-bit word from which each byte is recovered |
| Ketama.Decimal | go_ketama_consistent_hash/ketama.go:75 | `%d` of a non-negative int is a non-empty string of digits |
| Ketama.DecimalRoundTrip | go_ketama_consistent_hash/ketama.go:75 | parsing the decimal spelling of `n` gives `n` back |
| Ketama.TrailingDigitsOfReplica | go_ketama_consistent_hash/ketama.go:75 | a replica label ends in exactly the digits of its replica number |
| Ketama.ReplicaLabelInjective | go_ketama_consistent_hash/ketama.go:75 | two replica labels are equal only when both the real label and the replica number are equal |
| Ketama.EmptyRingIff | go_ketama_consistent_hash/ketama.go:65-68 | the summed weight is zero exactly when every real node has weight zero (in particular with no nodes), i.e. the ring is empty exactly then |
| Ketama.SumWeightsPrefix | go_ketama_consistent_hash/ketama.go:65-68 | the weights of the first `i` nodes add up to no more than all of them |
| Ketama.Replicas | go_ketama_consistent_hash/ketama.go:74-84 | a real node of weight `w` generates exactly `160*w` virtual nodes |
| Ketama.ReplicaAt | go_ketama_consistent_hash/ketama.go:74-83 | position `4*j+n` of a node's replicas is a copy of the node with hash `alignHash(label-j, n)` |
| Ketama.Expanded | go_ketama_consistent_hash/ketama.go:71-85 | the unsorted virtual nodes number `160 * sum(weights)` |
| Ketama.ExpandedAt | go_ketama_consistent_hash/ketama.go:71-85 | real node `i`, replica `j`, word `n` sits at index `160*(weights of nodes 0..i-1) + 4*j + n`, with that node's label, data and weight and hash `alignHash(label_i-j, n)` |
| Ketama.ExpandedOwned | go_ketama_consistent_hash/ketama.go:78-80 | every virtual node carries the label, data and weight of one of the real nodes |
| Ketama.CountAppend | go_ketama_consistent_hash/ketama.go:71-85 | counting a label over a concatenation adds the counts of the parts |
| Ketama.CountUniform | go_ketama_consistent_hash/ketama.go:77-80 | entries all copied from one owner count fully for its label and not at all for any other |
| Ketama.CountExpanded | go_ketama_consistent_hash/ketama.go:71-85 | label `l` owns exactly `160 *` (total weight of the real nodes labelled `l`) unsorted virtual nodes |
| Ketama.LabelWeightDistinct | go_ketama_consistent_hash/ketama.go:71-85 | with distinct real labels, the weight counted for a label is that one node's weight |
| Ketama.LabelWeightAbsent | go_ketama_consistent_hash/ketama.go:71-85 | a label that no real node has has weight zero |
| Ketama.MultisetRemoveAt | go_ketama_consistent_hash/ketama.go:86 | helper: removing one position of a sequence takes exactly that element out of its multiset |
| Ketama.CountRemoveAt | go_ketama_consistent_hash/ketama.go:86 | removing one position takes that entry out of the label count |
| Ketama.MultisetCancel | go_ketama_consistent_hash/ketama.go:86 | helper: adding the same element to two multisets keeps them equal only if they were equal |
| Ketama.CountPermutation | go_ketama_consistent_hash/ketama.go:86 | reordering the entries (as the sort does) does not change how many carry a label |
| Ketama.CountInRing | go_ketama_consistent_hash/ketama.go:71-86 | in any permutation of the generated virtual nodes, label `l` owns `160 *` its total weight |
| Ketama.SortByHash | go_ketama_consistent_hash/ketama.go:86 | after the in-place sort the entries are ascending by hash and a permutation of the input |
| Ketama.InsertLast | go_ketama_consistent_hash/ketama.go:86 | one insertion step extends the sorted prefix by one and permutes the array |
| Ketama.InsertingSwap | go_ketama_consistent_hash/ketama.go:86 | swapping the moved entry with a larger left neighbour keeps the rest of the prefix sorted, keeps the moved entry no larger than everything after it, and permutes the sequence |
| Ketama.InsertingDone | go_ketama_consistent_hash/ketama.go:86 | once the moved entry is at slot 0 or its left neighbour is no larger, the whole prefix is sorted |
| Ketama.PlaceReplicas | go_ketama_consistent_hash/ketama.go:74-84 | after writing one real node from index `k0`, the array up to `k0 + 160*w` is the old prefix followed by that node's replicas |
| Ketama.PlaceWords | go_ketama_consistent_hash/ketama.go:76-83 | the four words of one replica label are written at `k0 .. k0+3`, in order, leaving the prefix before `k0` unchanged |
| Ketama.Ring.NewRing | go_ketama_consistent_hash/ketama.go:62-88 | the ring has exactly `160 * sum(weights)` entries, is a permutation of the generated virtual nodes, and is sorted by hash |
| Ketama.FirstAbove | go_ketama_consistent_hash/ketama.go:101-124 | the first index whose hash is larger than `x`: all earlier entries are at most `x` |
| Ketama.FirstAtLeast | go_ketama_consistent_hash/ketama.go:114 | the first index whose hash is at least `x`: all earlier entries are below `x` |
| Ketama.FirstAboveSplits | go_ketama_consistent_hash/ketama.go:101-124 | on a sorted ring, entry `i` is above `x` exactly when `i >= FirstAbove(x)` |
| Ketama.FirstAtLeastSplits | go_ketama_consistent_hash/ketama.go:114 | on a sorted ring, entry `i` is at least `x` exactly when `i >= FirstAtLeast(x)` |
| Ketama.GapMeansAbsent | go_ketama_consistent_hash/ketama.go:113-115 | if the key hash lies strictly between entries `mid-1` (or 0) and `mid`, no entry has that hash and `mid` is the first entry above it |
| Ketama.Search | go_ketama_consistent_hash/ketama.go:99-125 | the binary search terminates and never indexes out of range; it returns an entry of the ring. On a sorted ring and a key hash equal to no entry's hash, it returns the first entry with a larger hash, wrapping to entry 0; on a sorted ring and a key hash equal to some entry's hash, it always returns entry 0 |
| Ketama.SearchAtLeast | go_ketama_consistent_hash/ketama.go:114 | the search with `hash <= m`: on a sorted ring it returns the first entry with hash at least the key's, wrapping to entry 0 |
| Ketama.EqualHashExample | go_ketama_consistent_hash/ketama.go:114 | on hashes [10, 20, 30] and key hash 20 the strict search returns the entry hashed 10, the inclusive one the entry hashed 20 |
| Ketama.Ring.Get | go_ketama_consistent_hash/ketama.go:92-126 | `None` exactly on an empty ring; the sole entry of a one-entry ring; otherwise an entry of the ring, and on a sorted ring the characterisation of `Search` for word 0 of the key's digest |
| Ketama.Ring.GetAtLeast | go_ketama_consistent_hash/ketama.go:92-126 | `Get` with the inclusive comparison: on a sorted non-empty ring, the first entry whose hash is at least the key's, wrapping round |
| Ketama.Ring.RepeatedGet | go_ketama_consistent_hash/ketama_test.go:77-82 | two lookups of the same key on a sorted ring return the same node |
| Rendezvous.XorshiftMult64 | go_rendezvous_consistent_hash/rdv.go:79-84 | the mixer maps 0 to 0, and `Unmix` inverts it |
| Rendezvous.UndoMix | go_rendezvous_consistent_hash/rdv.go:80-83 | each xorshift step and the multiplication by 2685821657736338717 modulo 2^64 are undone by the matching inverse step |
| Rendezvous.MixInjective | go_rendezvous_consistent_hash/rdv.go:79-84 | the mixer is injective on 64-bit words |
| Rendezvous.XorCancel | go_rendezvous_consistent_hash/rdv.go:42 | helper: xoring with the key hash twice gives the node hash back |
| Rendezvous.ScoreRoundTrip | go_rendezvous_consistent_hash/rdv.go:42 | the node hash is recovered from a key's score |
| Rendezvous.ScoreInjective | go_rendezvous_consistent_hash/rdv.go:42 | for one key, distinct node hashes never get the same score |
| Rendezvous.BvIntInjective | go_rendezvous_consistent_hash/rdv.go:42 | helper: two 64-bit words with the same unsigned value are equal |
| Rendezvous.ScoreValueInjective | go_rendezvous_consistent_hash/rdv.go:42 | for one key, distinct node hashes never get the same unsigned score value |
| Rendezvous.ScoreAt | go_rendezvous_consistent_hash/rdv.go:36-42 | entry `i` of the scores is `xorshiftMult64(keyHash ^ nodeHashValue[i])` as an unsigned integer |
| Rendezvous.ScoreSlot | go_rendezvous_consistent_hash/rdv.go:42 | the score the loop computes for slot `i` is entry `i` of the scores |
| Rendezvous.FirstMaxUnique | go_rendezvous_consistent_hash/rdv.go:41-46 | the earliest maximal slot is unique, so a lookup's answer is determined by the scores |
| Rendezvous.AppendKeepsOrTakes | go_rendezvous_consistent_hash/rdv.go:42 | appending a score keeps the old winner unless the new score is strictly higher, in which case the new slot wins |
| Rendezvous.ScoresAppend | go_rendezvous_consistent_hash/rdv.go:55 | appending a node hash leaves the scores of the earlier slots unchanged |
| Rendezvous.SwapRemove | go_rendezvous_consistent_hash/rdv.go:64-68 | swap-removing slot `i` shortens by one, keeps every other slot, moves the last element into slot `i`, and takes exactly the removed element out of the multiset |
| Rendezvous.UpdateThenTruncate | go_rendezvous_consistent_hash/rdv.go:64-68 | overwriting slot `i` with the last slot and then dropping the last slot is the swap-remove |
| Rendezvous.SwapRemoveDistinct | go_rendezvous_consistent_hash/rdv.go:64-65 | swap-removing from distinct labels keeps them distinct and drops the removed label |
| Rendezvous.DistinctScores | go_rendezvous_consistent_hash/rdv.go:42 | distinct node hashes give pairwise distinct scores for every key |
| Rendezvous.SameHashSameScore | go_rendezvous_consistent_hash/rdv.go:42 | two slots holding the same hash hold the same score |
| Rendezvous.ScoresSwapRemove | go_rendezvous_consistent_hash/rdv.go:67-68 | the scores after swap-removing a slot are the swap-removed scores: no other slot's score changes |
| Rendezvous.RemoveKeepsWinner | go_rendezvous_consistent_hash/rdv.go:58-74 | with no tied scores, removing a slot other than the winner keeps the winner, now at its new slot |
| Rendezvous.WinnerSurvivesRemove | go_rendezvous_consistent_hash/rdv.go:58-74 | with distinct node hashes, a key whose winner is not the removed node has the same winner after the swap-remove (at slot `i` if it was the last slot) |
| Rendezvous.RemoveAbsent | go_rendezvous_consistent_hash/rdv.go:60-73 | a label absent from the map is looked up as slot 0, and the corrected remove then leaves the map as it was except that the last label is re-pointed to slot 0 (when there is more than one slot) |
| Rendezvous.RemoveAsWritten | go_rendezvous_consistent_hash/rdv.go:63-64 | the source's read of `nodeStr[len(nodeStr)]` is out of range in every state |
| Rendezvous.LastSlotsStep | go_rendezvous_consistent_hash/rdv.go:20-24 | mapping one more label to the next slot keeps "the map holds exactly the labels seen, each at its last slot" |
| Rendezvous.LastSlotsIndexed | go_rendezvous_consistent_hash/rdv.go:20-24 | that map points every label at a slot holding it, and with distinct labels maps every slot's label |
| Rendezvous.RemoveKeepsInStep | go_rendezvous_consistent_hash/rdv.go:64-68 | swap-removing the same slot from both sequences keeps one precomputed hash per label |
| Rendezvous.RemoveKeepsSlots | go_rendezvous_consistent_hash/rdv.go:71-73 | after deleting the label and re-pointing the moved label, every map entry points at a slot holding its label |
| Rendezvous.RemoveKeepsAllMapped | go_rendezvous_consistent_hash/rdv.go:71-73 | with distinct, all-mapped labels, removal keeps them so and takes exactly the removed label out of the multiset |
| Rendezvous.RemoveKeepsInvariants | go_rendezvous_consistent_hash/rdv.go:58-74 | the slot is in range, the source's update-then-truncate is the swap-remove, and lockstep, slot and mapping invariants survive it |
| Rendezvous.Rendezvous.New | go_rendezvous_consistent_hash/rdv.go:12-27 | `nodeStr` is the input, `nodeHashValue[i] == hash(labels[i])`, the map holds exactly the input labels, each at the last slot holding it (for duplicates the last index wins), the invariants hold, and with distinct labels every slot's label maps to it |
| Rendezvous.Rendezvous.Lookup | go_rendezvous_consistent_hash/rdv.go:30-50 | on a non-empty selector the result is `nodeStr[midx]` for the smallest slot `midx` with the maximal score, hence one of the stored labels; no state changes |
| Rendezvous.Rendezvous.Add | go_rendezvous_consistent_hash/rdv.go:52-56 | `x` and `hash(x)` are appended, `x` maps to the old length, earlier slots are unchanged, and the invariants (with distinctness, when `x` is new) are kept |
| Rendezvous.Rendezvous.Remove | go_rendezvous_consistent_hash/rdv.go:58-74 | the corrected remove, on any non-empty selector whose sequences are in lockstep and whose looked-up slot (slot 0 for an absent label) is in range: both sequences are swap-removed at that slot, the node leaves the map and the moved label is re-pointed, lockstep is kept, the full invariant is kept whenever it held and the node was present, and on an indexed selector with the node present exactly the node leaves the multiset of labels |
| Rendezvous.Rendezvous.RemoveSlot | go_rendezvous_consistent_hash/rdv.go:60-73 | the statements of the remove: the last slot is moved into the looked-up slot, both sequences shrink by one, the node leaves the map and the moved label is re-pointed to its new slot |
| Rendezvous.RemoveAbsentLeavesStaleSlot | go_rendezvous_consistent_hash/rdv.go:60-73 | removing an absent label from `["a", "b"]` removes slot 0 and leaves `"a"` mapped to a slot that now holds `"b"`, yet still in range, so a later remove of `"a"` is accepted |
| Rendezvous.Rendezvous.LookupAfterAdd | go_rendezvous_consistent_hash/rdv.go:52-56 | after `Add(x)` a lookup returns its previous answer or `x`; it returns a different answer only when `x`'s new slot scores strictly higher than every earlier slot, and when it does score higher the answer is `x` |

## Left out

- Jump consistent hash: its Go implementation is not part of this model, and the C++ version uses floating point and an unspecified random generator.
- MD5 and the injected string hasher: foreign library calls. They are function-valued parameters with no further properties beyond the 16-byte digest length.
- `sort.Sort`: replaced by an in-place insertion sort over the same `Less` order. Only sortedness and permutation are stated, since the Go sort is not stable and its tie order is unspecified.
- Ketama.Ring.NewRing: weights are unbounded naturals, so the Go overflow of `int(weight)*4*40` is not modelled.
- Ketama.AlignHash: the `& 0xff` masks (no-ops on bytes) and the shifts and ors over disjoint bits are written as a sum of byte multiples.
- Ketama.Ring.Get: for a key hash equal to some entry's hash, only the result on a sorted ring is characterised (always entry 0); on an unsorted ring only "an entry of the ring" is stated.
- Rendezvous.Rendezvous.Lookup: an empty selector is excluded by the precondition, because the Go code faults reading `nodeHashValue[0]`. The lockstep invariant kept by `New`, `Add` and `Remove` is also required.
- Rendezvous.Rendezvous.Remove: requires a non-empty selector in lockstep (equal lengths, and each slot's hash the hash of its label; `New`, `Add` and `Remove` all keep this) whose looked-up slot (0 for an absent label) is in range. The lengths and the slot bound are needed because `len - 1` and that slot must index the sequences; lockstep is the selector's invariant, which Go never breaks; on an empty selector even the corrected Go code would fault. A remove of an absent label can leave the map pointing at the wrong slots, and such states are still accepted by later removes.
- Go's `*Node` pointers: `Get` returns a pointer into the ring, through which the exported `NodeLable` field can be changed; the model returns value copies, so that aliasing is not captured.
- Rendezvous.WinnerSurvivesRemove: stated for distinct node hashes only. With equal hashes, tied scores can change which tied slot is first after the reorder.
- Statistical balance, standard deviation, random keys, timing, benchmarks and printing in the tests: floating point, randomness and measurement scaffolding.
- The empty-selector test and its harness call a `NewRendezvous` constructor that the selector source does not define.
- Concurrency: there is none in the source, and no locking is modelled.

## Findings

| source | as written | input that shows it | evidently intended | confidence | as-written member | corrected member |
|---|---|---|---|---|---|---|
| go_ketama_consistent_hash/ketama.go:114 | the found test `hash < m && hash > p` is strict on both sides, so a key hash equal to an entry's hash never stops the search and it ends in the wrap-round to entry 0 | ring hashes [10, 20, 30], key hash 20: returns the entry hashed 10 | return the first entry whose hash is at least the key hash (`hash <= m`), wrapping round | not executed | Ketama.Search, Ketama.EqualHashExample | Ketama.SearchAtLeast, Ketama.Ring.GetAtLeast |
| go_rendezvous_consistent_hash/rdv.go:63-67 | `l := len(r.nodeStr)` then reads `r.nodeStr[l]` and `r.nodeHashValue[l]`, one past the end; `[:l]` does not shrink | any selector, any label: the read at index `len(nodeStr)` is out of range | move slot `len - 1` into the removed slot, truncate to `len - 1`, and re-point the moved label only when a slot other than the last was removed | not executed | Rendezvous.RemoveAsWritten | Rendezvous.Rendezvous.Remove |
