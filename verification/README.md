# Byte trie with ternary search, path compression and range boundaries

This project is a Dafny model of the trie in `trie/trie.go`. Keys are byte
strings. Each node has:

- a map from a branch identifier to a child, where the identifier is a byte
  0..255 or the end-of-key sentinel `-1`;
- a branch list in insertion order;
- a `Step`, the number of key bytes its incoming edge consumes;
- on a leaf only: a value and two range flags.

The model covers these operations:

- `New` builds a trie from ascending keys, one node per byte, using `addKV`.
- `Search` makes one descent and returns three values: the value of the
  greatest stored key below the query, the value of the query itself, and
  the value of the smallest stored key above it. It uses `neighborBranches`,
  `leftMost` and `rightMost`.
- `Squash` compresses chains of single-byte nodes into one edge with a
  longer step.
- `NewRangeTrie` inserts the start and the end key of each range, with flags.
- `RemoveEndLeaves` (with `removeBranch`) prunes the leaves that only close
  a range.

The trie is an immutable datatype (`TrieNode.Node`), and every mutation in
the source becomes a function that returns the new node.

Each trie is related to an abstract view, `TrieNode.Entries`. It is the list
of stored keys with their values and flags, in branch order. The properties
are stated against reference definitions over that list:

- `EntryLists.Lookup`;
- `EntryLists.LastBelow`;
- `EntryLists.FirstAbove`;
- `EndLeaves.KeepStarts`, the list with end-only entries filtered out.

Modules, in dependency order:

| module | file | contents |
|---|---|---|
| `Keys` | keys.dfy | byte keys, lexicographic order |
| `Branches` | branches.dfy | branch lists: neighbour scan, `sort.Search`, `removeBranch` |
| `TrieNode` | node.dfy | node, errors, invariants, `Entries`, `leftMost`/`rightMost` |
| `EntryLists` | entry_lists.dfy | the reference queries on entry lists |
| `Insert` | insert.dfy | `addKV`, `New` |
| `TernarySearch` | search.dfy | `Search` |
| `TrieProperties` | trie_properties.dfy | `Search` on a trie from `New`, stated over the input keys |
| `Squashing` | squash.dfy | `Squash` |
| `RangeTrie` | range.dfy | `NewRangeTrie` |
| `EndLeaves` | prune.dfy | `RemoveEndLeaves` |
| `Scenarios` | scenarios.dfy | worked examples on concrete keys |

The invariants every constructed trie keeps are:

- `TrieNode.Shaped`: the children are exactly the listed branches, each
  listed once; the sentinel child is a valued leaf; every byte child has
  branches.
- `TrieNode.Ordered`: every branch list is ascending.
- `TrieNode.UnitSteps`: every inner edge consumes one byte. This holds
  until the trie is squashed.
- `RangeTrie.Valueless`: only leaves carry values.

## Model

| member | source | states |
|---|---|---|
| TrieNode.LeftMost | trie/trie.go:197-208 | The walk down the first branches ends at a node without branches, and that node holds the value of the first stored entry in branch order. On an `Ordered` trie this is the smallest stored key. |
| TrieNode.RightMost | trie/trie.go:210-221 | The walk down the last branches ends at a node without branches, and that node holds the value of the last stored entry in branch order. On an `Ordered` trie this is the greatest stored key. |
| Branches.FirstAtLeast | trie/trie.go:169-173 | The scan stops at the first branch that is at least the asked-for one: every branch before it is smaller. |
| Branches.NeighborBranches | trie/trie.go:160-195 | An empty list yields (0, 0). Otherwise both indices are in -1..len-1, and a left index points at a smaller branch. |
| Branches.NeighborBranchesAscending | trie/trie.go:160-195 | On an ascending list, the left index is the nearest branch strictly below the asked one, or -1 when there is none. The right index is the nearest branch strictly above it, or -1. The asked branch itself is never reported. |
| Branches.NeighborSplit | trie/trie.go:160-195 | The two indices cut an ascending list into three parts: branches below, the asked branch if present, and branches above. |
| Branches.SortSearchIsFirstAtLeast | trie/trie.go:357-362 | On an ascending list, the bisection of `sort.Search` finds the same index as the linear scan. |
| Branches.RemoveBranch | trie/trie.go:355-368 | A branch that is not listed leaves the list unchanged. Otherwise the result is a sublist that is at most one shorter. |
| Branches.RemoveBranchAscending | trie/trie.go:355-368 | On an ascending list, exactly the given branch is removed, the list stays ascending, and it shrinks by one exactly when the branch was present. |
| Branches.RemoveBranchesAscending | trie/trie.go:327-353 | Repeated `removeBranch` calls delete exactly the visited branches that are dropped, and keep the list ascending. |
| Branches.RemoveBranchesAnyOrder | trie/trie.go:339-352 | On an ascending list, the result of the removals does not depend on the order in which the branches are visited. So Go's map iteration order cannot change the pruned branch list. |
| Insert.Chain | trie/trie.go:264-276 | The fresh one-byte-per-level chain is a well-formed trie that stores exactly one key, the unmatched suffix, with the leaf's value and flags. |
| Insert.AddKV | trie/trie.go:237-279 | `addKV` fails only with the duplicate-key or the out-of-order error. |
| Insert.AddKVOutcome | trie/trie.go:237-262 | Duplicate-key is reported exactly when the key is already stored. Out-of-order is reported exactly when the key is not stored but is a proper prefix of a stored key. |
| Insert.AddKVAppends | trie/trie.go:237-279 | Take a well-formed trie whose keys are all below the new key. `addKV` succeeds, keeps the invariants, and appends exactly the new entry, with its value and flags, after the stored entries. |
| Insert.New | trie/trie.go:30-42 | A values argument that is not a slice gives values-not-a-slice. Otherwise a count mismatch gives the key/value length error. |
| Insert.NewBuilds | trie/trie.go:30-55 | For strictly ascending keys, `New` succeeds with a well-formed trie that stores exactly the given keys, each paired with its value, in order. |
| Insert.NewUpTo | trie/trie.go:44-51 | When all earlier keys are ascending, the error of the first failing insertion is the error `New` returns. |
| Insert.NewReportsDuplicate | trie/trie.go:44-51 | If the first key that breaks the ascending order repeats an earlier key, `New` fails with duplicate-key. |
| Insert.NewReportsPrefix | trie/trie.go:44-51 | If the first key that breaks the ascending order is not a repeat but a proper prefix of an earlier key, `New` fails with out-of-order. |
| TernarySearch.Descend | trie/trie.go:111-145 | The descent keeps its lower and upper candidates well formed. An exact match is always a leaf. |
| TernarySearch.DescendSpec | trie/trie.go:111-145 | A descent at a node, with part of the key consumed, gives the reference answer for the rest of the key over that node's entries. Components with no answer fall back to the candidates found higher up. |
| TernarySearch.SearchIsQuery | trie/trie.go:105-158 | On a well-formed, unsquashed trie, `Search` returns three values. They are the value of the last stored key below the query, the value stored at the query, and the value of the first stored key above it. |
| TrieProperties.SearchNew | trie/trie.go:30-55 | On a trie built by `New` from ascending keys, `Search` returns the values of the greatest key below the query, of the query itself and of the smallest key above it. Each is absent exactly when there is no such key (for Go this needs non-nil values, see Left out). |
| TrieProperties.SearchSquashedNew | trie/trie.go:89-103 | For every key given to `New`, searching the squashed trie gives the same nearest-key answer as searching the unsquashed one. |
| Squashing.Squash | trie/trie.go:89-103 | The root itself is never replaced. It keeps its branches, its set of children, its step and its value. |
| Squashing.SquashShaped | trie/trie.go:89-103 | Squashing keeps the trie well formed. |
| Squashing.SquashOrdered | trie/trie.go:89-103 | Squashing keeps every branch list ascending. |
| Squashing.SquashCompressed | trie/trie.go:89-103 | After squashing, no node below the root has a single byte branch. |
| Squashing.SquashCompressedFixed | trie/trie.go:89-103 | A trie with no collapsible node below the root is left unchanged. |
| Squashing.SquashIdempotent | trie/trie.go:89-103 | Squashing twice gives the same trie as squashing once. |
| Squashing.SquashEnds | trie/trie.go:89-103 | Squashing does not change the values that `leftMost` and `rightMost` reach: those of the first and last stored entries in branch order, which are the smallest and greatest keys when `Ordered`. |
| Squashing.SquashChildCollapses | trie/trie.go:94-100 | A child is replaced by the first node of its single-branch chain that is not collapsible, squashed, and its step grows by the length of the chain. |
| Squashing.CompressedStep | trie/trie.go:99 | On an unsquashed trie, a compressed edge's step is one plus the number of nodes removed above it. |
| Squashing.SearchSquashed | trie/trie.go:89-158 | For every stored key, `Search` on the squashed trie returns the same three values as on the original. |
| Squashing.SquashSkipsBytes | trie/trie.go:138-144 | A concrete case: a squashed `Search` does not compare the bytes a compressed edge skips. With only `ab` stored, `ac` has no exact match before squashing and matches `ab`'s value after. |
| RangeTrie.MarkEnd | trie/trie.go:314-316 | Setting the end flag on a leaf changes no branch list, child set, step or inner value. |
| RangeTrie.MarkEndEntries | trie/trie.go:314-316 | Exactly the entry stored at the key gains the end flag. Every other entry is unchanged. |
| RangeTrie.AddKVValueless | trie/trie.go:264-278 | Inserting a key never puts a value on an inner node. |
| RangeTrie.NewRangeTrie | trie/trie.go:281-297 | The input checks come in this order: range-length mismatch, then values-not-a-slice, then key/value length mismatch. |
| RangeTrie.AddOneRange | trie/trie.go:301-322 | One range adds its start with the start flag. If the end is the same key, the end flag merges onto that leaf. Otherwise the end is added with the end flag. For sorted ranges the end's insertion can fail only as a duplicate, and then the start leaf is marked instead. |
| RangeTrie.RangeBuilds | trie/trie.go:281-325 | Ranges that each start at or before their end, and end below the next start, build a well-formed trie. Its entries are each range's start (start flag) and end (end flag) in order, merged into one entry with both flags when they coincide. |
| RangeTrie.NewRangeReportsRepeatedStart | trie/trie.go:304-309 | A start that repeats an earlier range's start or end makes `NewRangeTrie` fail with duplicate-key. |
| EndLeaves.RemoveEndLeaves | trie/trie.go:327-353 | Pruning keeps the node's step and value. |
| EndLeaves.PrunedBranches | trie/trie.go:327-353 | After pruning, the branch list is ascending and lists exactly the surviving children: those not end-only and not emptied by pruning. |
| EndLeaves.PruneShaped | trie/trie.go:327-353 | Pruning keeps the trie well formed and ordered. |
| EndLeaves.PruneValueless | trie/trie.go:327-353 | Pruning puts no value on an inner node. |
| EndLeaves.KeepStartsMembers | trie/trie.go:332 | Characterises the `KeepStarts` reference filter, which mirrors the test at line 332: it keeps an entry exactly when the entry is present and not end-only. |
| EndLeaves.PruneEntries | trie/trie.go:327-353 | The pruned trie stores exactly the original entries that are not end-only, in their order. |
| EndLeaves.PruneClean | trie/trie.go:341-351 | After pruning, no end-only leaf is left, and the trie is still well formed, so at no depth is an inner node left without branches. |
| EndLeaves.RangeSearch | trie/trie.go:327-353 | After building and pruning a range trie, `Search` answers the reference query over the range starts. |
| EndLeaves.RangeSearchExact | trie/trie.go:327-353 | After pruning, `Search` finds an exact match exactly when the query is some range's start, and it returns that range's value (for Go this needs non-nil values, see Left out). An end-only boundary finds nothing. |
| Scenarios.DecadeSearches | trie/trie.go:105-158 | A concrete case: the trie of keys 10..60 answers 25 with (20, none, 30), 10 with (none, 10, 20) and 5 with (none, none, 10). |
| Scenarios.UnsortedAccepted | trie/trie.go:237-276 | A concrete case: `New` accepts keys 2 then 1 and leaves the root's branch list descending. |

## Behaviour worth knowing

- **Unsorted keys.** The out-of-order error's message reads "keys not
  ascending sorted" (trie/trie.go:16). But `addKV` raises it in one case
  only, as the comment at trie/trie.go:258 says: the key is a proper
  prefix of a stored key. Other unsorted input may be accepted, and may
  leave a branch list descending (`Scenarios.UnsortedAccepted`). All
  search properties therefore assume ascending keys, as the source's
  callers must supply them.
- **Search after `Squash`.** Squashing keeps the answer for every stored
  key (`Squashing.SearchSquashed`), but not for every query. `Search`
  follows a compressed edge by adding its step to the key position
  (trie/trie.go:138) without comparing the bytes it skips. A key that
  differs from a stored key only in skipped bytes becomes an exact match
  (`Squashing.SquashSkipsBytes`).
- **Adjacent ranges.** `NewRangeTrie` inserts each range's start before its
  end (trie/trie.go:305, 312). A start equal to the previous range's end
  therefore collides with that end and fails with duplicate-key
  (`RangeTrie.NewRangeReportsRepeatedStart`). Flags merge only when a
  range's end equals its own start.
- **A duplicate end marks the current start.** When an end key is already
  stored, the source sets the end flag on the leaf of the start it has just
  inserted (trie/trie.go:315), whichever stored key the end collided with.
  `RangeTrie.AddRange` does the same. For sorted ranges the collision can
  only be with that start.
- **Leaf steps.** Inner nodes are created with step 1 (trie/trie.go:266),
  and leaves with the zero step (trie/trie.go:273). `Search` never reads a
  leaf's step, because it stops on the sentinel branch.
- **Squash step growth.** A promoted child's step grows by 1
  (`child.Step += 1`, trie/trie.go:99), not by the removed node's step.
  The two agree on an unsquashed trie, where every removed node has step 1
  (`Squashing.CompressedStep`).

## Left out

- The `serialize` package, `ToStrings` and `toSlice` are not part of this
  model. The reflection check in `toSlice` becomes the `Insert.Values`
  datatype: a typed slice, or "not a slice".
- Error wrapping with the offending key's text (`xerrors.New`) is left out.
  The model returns the bare error kind.
- The partially built trie that `New` and `NewRangeTrie` return alongside
  an error is left out. The model returns only the error.
- Nil values are not modelled. Go's `Search` returns nil both for a
  missing match or neighbour and for a stored nil value (trie/trie.go:147-157).
  The model's `Option<V>` keeps `Some(v)` and `None` apart. So the "absent
  exactly when" claims of `TrieProperties.SearchNew` and
  `EndLeaves.RangeSearchExact` carry over to Go only when no stored value
  is nil.
- Pointers and in-place mutation are left out. `addKV`'s returned leaf
  pointer is replaced by finding the leaf again by its key
  (`RangeTrie.MarkEnd`). The leaf just inserted at that key is the one the
  source holds.
- `Step` is `uint16` in the source. The model uses an unbounded `nat`, so
  wrap-around on a chain of more than 65535 single-byte nodes is not
  modelled.
- Go's map iteration order in `Squash` and `RemoveEndLeaves` is not
  modelled. `Squash` rewrites each child independently, so the order cannot
  matter. `RemoveEndLeaves` removes branches in branch-list order, and
  `Branches.RemoveBranchesAnyOrder` shows that any order gives the same
  list on an ascending list.
- TernarySearch.Search: requires the root to have at least one branch. On
  an empty root the source indexes past the end of the branch list and
  panics, and the model does not represent the panic.
- Squashing.Squash: requires a well-formed trie (`TrieNode.Shaped`). On a
  node whose single branch has no child, the source dereferences nil.
  Constructors never produce such a node.
- TernarySearch.SearchIsQuery: proved for unsquashed, ordered tries. For a
  squashed trie, only stored keys are covered (`Squashing.SearchSquashed`).
- EndLeaves.PruneEntries: proved for tries whose inner nodes carry no value
  and whose branch lists ascend. `NewRangeTrie` builds such tries from
  sorted ranges (`RangeTrie.RangeBuilds`).
- Insert.AddKV: its own contract only names the two possible errors. When
  each occurs is stated by `Insert.AddKVOutcome`, and the success case by
  `Insert.AddKVAppends`.
