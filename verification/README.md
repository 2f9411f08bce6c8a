# sset in Dafny: a skip list and the sorted set built on it

This project models the core of `sset`, a Go sorted set. A sorted set
stores string members, each with a non-negative integer rank. It keeps two
structures side by side:

- a dictionary from member to rank;
- a skip list from rank to the set of members holding that rank.

The skip list (`internals/skiplist.go`) is a list of nodes with up to
`maxLevels` forward links each. Keys lie in `[minKey, ∞)`, and a header
node sits in front keyed `minKey - 1`. It supports these operations:

- `AddOrModify` inserts a key or updates its member set.
- `SearchOrModify` looks a key up and can rewrite its member set.
- `DeleteOrModify` deletes a node or lets a callback shrink its member set.
- `SearchRange` lists the member sets of a half-open key range.

The sorted set (`sorted_set.go`) fixes `maxLevels = 32` and `minKey = 0`.
It offers `Add`, `Remove`, `Get`, `GetRange`, `Exists` and `GetRank`.

## The Dafny project

| file | module | contents |
|---|---|---|
| `outcomes.dfy` | `Outcomes` | `Result` (a panic becomes `Panic(error)`) and `Option` (a Go value that may be nil) |
| `sorted_entries.dfy` | `SortedEntries` | the abstract view: ascending `(key, members)` entries, the map they denote (`AsMap`), the range filter `Window`, and map restriction `Restrict` |
| `skiplist_model.dfy` | `SkipListModel` | nodes in an arena indexed by `nat` with the header at index 0; the invariant `Valid` (one ordered chain per level, each level contained in the one below, `currentLevel` exact); the abstraction `Abs` |
| `skiplist_splice.dfy`, `skiplist_steps.dfy` | `SkipListSplice`, `SkipListSteps` | proof steps: how one splice or unlink changes a chain and the abstract map |
| `skiplist.dfy` | `SkipLists` | the skip-list operations |
| `sorted_set.dfy` | `SortedSets` | the sorted-set façade and its consistency invariant |

Each operation takes the list as a value and returns the updated list. Its
contract says how the abstract map `Abs(s)` (key to member set) changes.
The loops of the Go code are kept: the descent level by level, the unlink
loop, the `currentLevel` recomputation, and the count-then-collect loops of
`SearchRange`. Go's panics are `Panic` results, so every contract states
exactly when each one occurs.

The sorted set's invariant `SortedSets.Consistent` has three parts:

- the list is valid and has the fixed parameters;
- every rank is at least 0;
- the list's map equals `Groups(dict)`, the dictionary grouped by rank.

So a member has rank `r` exactly when it lies in the set stored under key
`r`, and no stored set is empty. `Add` and `Remove` preserve it. The
read operations are specified against the dictionary but compute from the
list, or the other way round.

## Model

| member | source | states |
|---|---|---|
| SkipLists.Init | internals/skiplist.go:51-74 | Panics exactly when maxLevels < 1. Otherwise it returns a valid, empty list (empty map) with currentLevel -1 and the given maxLevels and minKey. Its header is keyed minKey - 1 and has maxLevels links, all nil. |
| SkipLists.GenerateRandLevel | internals/skiplist.go:76-84 | The level is 0 plus one for each leading "promote" outcome, capped at maxLevels - 1. Every outcome before the level promotes. The outcome at the level stops the climb unless the draws ran out or the cap was reached. |
| SkipLists.ScanLevel | internals/skiplist.go:231-234 | Scanning one level from a node below key stops at the last node of that level's chain whose key is below key (the predecessor). |
| SkipLists.Descend | internals/skiplist.go:229-236 | On every level the descent stops at the predecessor of key. update holds that node on active levels and nil above currentLevel. The returned node is the level-0 predecessor. |
| SkipLists.AddOrModify | internals/skiplist.go:222-270 | Panics exactly when key < minKey. Otherwise the list stays valid with the same parameters. An absent key maps to value afterwards. A present key maps to the modifier's result, or to value when there is no modifier, and no link changes. A new node appears on exactly levels 0 to the drawn level, and currentLevel becomes the larger of the old one and that level. |
| SkipLists.InsertFresh | internals/skiplist.go:245-261 | Adding an absent key gives a valid list whose map gains key -> value. The node is on exactly levels 0 to the drawn level. |
| SkipLists.FillHeader | internals/skiplist.go:249-255 | On the levels above currentLevel up to the drawn level, the header becomes the recorded predecessor. Every other entry stays as it was. |
| SkipLists.SpliceIn | internals/skiplist.go:257-260 | On each level up to the drawn level, the new node takes over its predecessor's old link and the predecessor points at the new node. Every other link, key and member set is unchanged. |
| SkipLists.SetMembers | internals/skiplist.go:263-266 | Replacing a node's member set changes only that key's entry of the map. It moves no link. |
| SkipLists.DescendMatching | internals/skiplist.go:95-109 | update[j] is the level-j predecessor exactly when the next node on level j carries key, and nil otherwise. The node found is non-nil exactly when key is in the map, and it is then the level-0 node with that key. |
| SkipLists.MatchLevel | internals/skiplist.go:101-108 | One level of that descent extends the recorded predecessors and matches by one level. |
| SkipLists.DeleteOrModify | internals/skiplist.go:88-140 | Panics exactly when key < minKey. An absent key changes nothing, and the callback does not run. For a present key the callback runs exactly when one is given. The node is deleted exactly when the verdict says so; with no callback it is always deleted. A deletion removes key from the map. Otherwise key maps to the member set the callback kept, and no link changes. |
| SkipLists.Unlink | internals/skiplist.go:127-129 | From level 0 upwards, while a predecessor was recorded, the predecessor takes over the deleted node's link. The loop stops at the first level without a record. |
| SkipLists.TopLevel | internals/skiplist.go:131-137 | The new currentLevel is one below the lowest level whose header link is nil, never above the old one. The header links up to it are non-nil. |
| SkipLists.RemoveNode | internals/skiplist.go:127-137 | Unlinking the found node and recomputing currentLevel leaves a valid list whose map is the old one without key. |
| SkipLists.FindKey | internals/skiplist.go:200-214 | The search finds a node exactly when key is in the map. A found node carries key and the map's member set for it. |
| SkipLists.SearchOrModify | internals/skiplist.go:190-217 | Panics exactly when key < minKey. Otherwise the result is present exactly when key is in the map. It is then the modifier's result on the stored set, or the stored set itself when there is no modifier, and the list stores that result. No link changes. Without a modifier, or for an absent key, the list is unchanged. |
| SkipLists.SearchRange | internals/skiplist.go:144-186 | Panics with BoundBelowMin exactly when a bound is below minKey. Otherwise it panics with EmptyRange exactly when keyMin >= keyMax. Otherwise it returns the member sets of the keys in [keyMin, keyMax) in ascending key order, and these denote exactly the part of the map inside the range. |
| SkipLists.CountBelow | internals/skiplist.go:173-178 | The count is the length of the run of consecutive level-0 nodes, from the first node at or above keyMin, whose keys lie below keyMax. |
| SkipLists.CollectValues | internals/skiplist.go:180-183 | The result lists the member sets of those nodes in chain order. |
| SkipLists.RangeResult | internals/skiplist.go:163-185 | The nodes between keyMin's predecessor and the first key at or above keyMax are exactly the window [keyMin, keyMax) of the list's entries. |
| SortedEntries.WindowIsRestriction | internals/skiplist.go:142-144 | The window of an ascending run of entries is ascending and denotes exactly the restriction of the run's map to [lo, hi). |
| SortedEntries.AsMapInsert | internals/skiplist.go:257-260 | Splicing an entry into an ascending run adds exactly its key to the map. |
| SortedEntries.AsMapRemove | internals/skiplist.go:127-129 | Unlinking an entry from an ascending run removes exactly its key from the map. |
| SortedEntries.AsMapReplace | internals/skiplist.go:122-124 | Replacing an entry's member set changes only that key's value in the map. |
| SortedSets.Init | sorted_set.go:23-28 | A new sorted set is consistent and empty: no member, and an empty skip-list map. |
| SortedSets.Add | sorted_set.go:32-52 | Panics exactly when rank < 0. It reports true exactly when the member was absent; a member already present leaves the set unchanged. A new member enters the dictionary with rank and joins the set stored under rank, which is created if needed. Consistency is preserved. |
| SortedSets.Remove | sorted_set.go:55-77 | It reports true exactly when the member was present; an absent member changes nothing. A removed member leaves the dictionary and the set under its rank. That set's node goes when the member was its last. Consistency is preserved. |
| SortedSets.RemoveUndoesAdd | sorted_set.go:41-74 | Removing a member right after adding it restores the skip list's map, when no set held the member before and every stored set is non-empty (as `Consistent` guarantees). |
| SortedSets.GroupsAdd | sorted_set.go:45-49 | Giving a new member a rank adds it to that rank's group, and creates the group if the rank was unused. |
| SortedSets.GroupsRemove | sorted_set.go:66-74 | Dropping a member removes it from its rank's group, and drops the group when it was the last member. |
| SortedSets.Get | sorted_set.go:80-98 | Panics exactly when rank < 0. Otherwise it returns each member of that rank exactly once, and nothing else. |
| SortedSets.SetToSeq | sorted_set.go:89-95 | Listing a set gives each of its elements exactly once, and nothing else. |
| SortedSets.GetRange | sorted_set.go:102-131 | Panics with NegativeRank exactly when a bound is negative. Otherwise it panics with EmptyRange exactly when rankMin >= rankMax. Otherwise it returns each member whose rank lies in [rankMin, rankMax) exactly once, nothing else, with ranks in non-decreasing order. |
| SortedSets.Flatten | sorted_set.go:116-128 | Every group is listed in full, group after group: the result has as many entries as the groups have members in total, and each member of group t appears at a position tagged t. A member of several groups appears once for each of them; within one group it appears once. |
| SortedSets.FlattenRanks | sorted_set.go:116-128 | Flattening the window's groups lists every member ranked in the range once, in ascending rank. |
| SortedSets.Exists | sorted_set.go:134-140 | On a consistent set, a member exists exactly when some rank's node in the skip list holds it. |
| SortedSets.GetRank | sorted_set.go:143-151 | On a consistent set, the result is -1 exactly when no node holds the member. Otherwise it is the key of the node holding it. |

## Left out

- The `sync.RWMutex` of the sorted set (sorted_set.go:19, 26 and the lock calls) is not modelled. Each operation is modelled as one atomic step on a value.
- `levelJumpProbability` and the `rand.Int()` float32 draw are not modelled. `GenerateRandLevel` receives the coin outcomes as `draws: seq<bool>`, and the climb also stops when the draws run out. The distribution of levels is outside the model.
- Go maps are mutable and shared by reference, and the sorted set's callbacks mutate member maps in place. The model uses immutable `set<string>` values and pure callbacks that return the new set. Aliasing between a caller's map and a node's map is not modelled.
- Nil versus empty maps are not distinguished. `Verdict(None, v)` is `(true, {})`, and `Remove`'s callback returns `(true, {})` where Go returns `(true, nil)`. SearchOrModify returns `Some(f(v))` for a present key even when a Go modifier would return nil, because Go's nil map reads as empty.
- `DebugPrint` (internals/skiplist.go:36-49) builds display strings only and is not modelled.
- `internals.Dictionary` (internals/dict.go) is just a Go map type. It is folded into `SortedSet.dict`, a `map<string, int>`.
- Nodes unlinked by `DeleteOrModify` stay in the arena, unreachable, where Go's garbage collector would free them. No contract depends on the arena's size.
- Go's fixed-width `int` is modelled as an unbounded `int`. The header key `minKey - 1` and ranks near the limits of `int` would wrap in Go, and that is not modelled.
- The order in which `Get` and `GetRange` list the members of one rank follows Go's map iteration, which is unspecified. `SetToSeq` picks an arbitrary order, and the contracts fix only contents, uniqueness and rank order.
- `GetRange` counts the members before filling a preallocated slice (sorted_set.go:116-121). The model appends group by group, which gives the same sequence.
