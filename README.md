# Expiration list

A Dafny model of `ExpirationList<T>`, a container that hands out stable
`usize` identifiers that are never reused, together with its iterator.

The container keeps its entries in two stores:

- **Dense store** `list`: a sequence of optional slots. Slot `i` holds
  identifier `firstId + i`. `add` appends to it. Removing a dense entry
  clears its slot.
- **Overflow store** `m`: a map from identifier to value. It holds only
  identifiers below `firstId`.

`count` is the number of populated dense slots. When a removal leaves the
dense store less than half populated and longer than 32 slots, a compaction
pass runs. The pass migrates the surviving entries of a leading part of the
dense store into the overflow store and advances `firstId` by the length of
that part. The part starts as half of the store and is extended adaptively
while the rest is still sparse.

The model consists of four modules.

- `Wrappers` (`wrappers.dfy`) holds `Option` and map lookup.
- `Enumeration` (`enumeration.dfy`) holds what it means for a sequence of
  `(id, value)` pairs to list a map. It also holds `Enumerate`, which
  stands for the hash map's iterator: it yields the entries in an order the
  caller does not choose.
- `DenseStore` (`dense_store.dfy`) holds pure definitions over the dense
  store:
  - the live entries of a slot sequence (`DenseEntries`);
  - the sparseness test;
  - the final cutoff of the compaction pass (`Cutoff`, `ShrinkCount`);
  - the pass itself, one step per slot (`WalkStep`, `CompactionWalk`);
  - the lemmas connecting them.
- `ExpirationLists` (`expiration_list.dfy`) holds the two classes,
  `ExpirationList` and `ExpirationListIterator`, with fields and methods as
  in the source. `Shrink` is the compaction loop. Its `while` loop walks the
  old buffer, mutating `m`, `count`, the cutoff and the new `list` in place,
  and is proved against `CompactionWalk`.

The ghost function `Contents()` is the map of all live entries:
`m + DenseEntries(firstId, list)`. Every operation is specified by its
effect on `Contents()` and on the fields.

`Contains` follows the code where the code and its own documentation
disagree. The doc comment at src/lib.rs:197 promises `true` exactly when
an item with the identifier exists. `get` (src/lib.rs:185) indexes the
dense store at `id - first_id`, but `contains` (src/lib.rs:201) indexes it
at `id` (see Findings).

## Model

| member | source | states |
|---|---|---|
| ExpirationLists.ExpirationList.constructor | src/lib.rs:110-124 | `new`/`default`: `firstId`, `count` are 0, both stores empty, no live entries, invariant established |
| ExpirationLists.ExpirationList.NextId | src/lib.rs:127-131 | on a valid list every live identifier is below `firstId + |list|`, the identifier `add` hands out next |
| ExpirationLists.ExpirationList.Add | src/lib.rs:127-131 | returns the old next identifier, which was not live, and the next identifier grows by one. The live entries gain exactly `id := v` and `Get(id)` is `v`; every other `Get` is unchanged. The value is appended as a populated slot, `count` grows by one, and `firstId` and the overflow store are untouched, so there is no compaction. The invariant is kept |
| ExpirationLists.ExpirationList.Remove | src/lib.rs:135-178 | returns what `id` mapped to, or `None` when it was not live. The live entries lose exactly `id`, and afterwards `Get(id)` is `None`. The next identifier is unchanged and `firstId` never decreases. An overflow id only loses its key. Every `None` result leaves every field unchanged. A dense removal clears the slot, then retires exactly `ShrinkCount` leading slots into the overflow store and advances `firstId` by as much. Afterwards `count*2 >= |list|` or `|list| <= 32`. The invariant (count, overflow keys below `firstId`) is kept |
| ExpirationLists.ExpirationList.Shrink | src/lib.rs:147-174 | the compaction loop, with the trigger holding on entry. `firstId` advances by `ShrinkCount(old list)`. The new dense store is the old one after that cutoff. The overflow store gains exactly the live entries of the retired slots, under `idx + firstId`. `count` is again the number of populated slots |
| ExpirationLists.ExpirationList.CompactionStep | src/lib.rs:155-173 | the closure body for one slot performs exactly one `WalkStep` on the fields: a slot before the cutoff moves into the overflow store under `idx + firstId` (and `count` drops) with the possible cutoff extension, a later slot is appended to the new dense store; `firstId` is unchanged |
| ExpirationLists.ExpirationList.Get | src/lib.rs:180-186 | on a valid list, routing by `id < firstId` yields exactly the live value of `id` |
| ExpirationLists.ExpirationList.GetMut | src/lib.rs:188-195 | writing through the reference `get_mut` returns: it succeeds iff `id` is live, and then replaces exactly the value of `id`. `firstId`, `count`, the slot count and the overflow keys are unchanged |
| ExpirationLists.ExpirationList.Contains | src/lib.rs:197-205 | as written (dense store indexed by `id`): agrees with liveness on every id below `firstId`, and on dense ids whenever `firstId` is 0 |
| ExpirationLists.ExpirationList.ContainsIntended | src/lib.rs:197-205 | corrected `contains` (index `id - firstId`): true iff `id` is live, iff `Get(id)` is `Some` |
| ExpirationLists.ContainsMissesLiveId | src/lib.rs:201 | once `firstId >= |list|`, every live dense identifier is reported absent by `contains` although `get` finds it |
| ExpirationLists.ExpirationListIterator.constructor | src/lib.rs:97-107 | `into_iter`: the pairs still to come are an enumeration of the live entries (every one exactly once, right value). When the overflow store is empty they ascend by identifier. Dense phase starts at `firstId` |
| ExpirationLists.ExpirationListIterator.Remaining | src/lib.rs:73-94 | the pairs still to come: as many as the overflow entries still pending plus the populated dense slots left |
| ExpirationLists.ExpirationListIterator.Next | src/lib.rs:73-94 | yields the first pair still to come and drops it, or `None` (with nothing left) once both phases are exhausted. The map phase never touches the dense cursor |
| ExpirationLists.IterationYieldsContents | src/lib.rs:73-107 | map entries (any enumeration of the overflow store) followed by the populated dense slots, ids from `firstId`, list every live entry exactly once; with no overflow entries they ascend |
| ExpirationLists.Collect | src/lib.rs:279-283 | a `for` loop over the iterator collects exactly the pairs it had still to yield |
| ExpirationLists.UsageExample | src/lib.rs:19-28 | the documented usage: after `add` on a fresh list, `get` finds the value and `contains` is true. `remove` returns it, then `get` is `None` and `contains` is false |
| ExpirationLists.RemovesMultipleTimes | src/lib.rs:288-302 | after adding ten values, `remove(1)` returns `Some(1)` and ten further `remove(1)` return `None`. Ten more adds leave `count` at 19 |
| ExpirationLists.OverflowUpdate | src/lib.rs:191-192 | writing an overflow key not in the dense store writes that key of the live entries |
| ExpirationLists.OverflowRemove | src/lib.rs:136-137 | removing an overflow key not in the dense store removes it from the live entries |
| ExpirationLists.UpdateKeepsOthers | src/lib.rs:141 | overwriting dense slot `i` sets or removes exactly identifier `first + i` of the live entries |
| ExpirationLists.DenseWrite | src/lib.rs:194 | writing `v` into the dense slot of live `id` writes exactly `id := v` of the live entries |
| ExpirationLists.CompactionKeepsEntries | src/lib.rs:152-174 | migrating the first `k` slots into the overflow store and re-basing the rest at `first + k` keeps the live entries; migrated keys are below `first + k` |
| ExpirationLists.ClearedEntries | src/lib.rs:141-174 | clearing slot `i` then compacting by `k` removes exactly the cleared identifier from the live entries and keeps overflow keys below the new `firstId` |
| Enumeration.Enumerate | src/lib.rs:104 | the hash map's iterator: lists every entry of the map exactly once, as many pairs as entries |
| Enumeration.EnumerationConcat | src/lib.rs:75-91 | listing one map and then another with disjoint keys lists their union |
| DenseStore.Cutoff | src/lib.rs:161-169 | the adaptive extension ends between the starting cutoff and the store length, at a cutoff where the rest is no longer sparse |
| DenseStore.ShrinkCount | src/lib.rs:147-169 | the slots compaction retires: none when the trigger does not fire, else at least half the store. Never more than the store, and the rest is never sparse |
| DenseStore.Sparse | src/lib.rs:148-166 | the trigger and the re-check after the last retired slot: when the region from the cutoff on is sparse it is longer than 32 slots, and extending the cutoff by half of it strictly advances the cutoff while staying within the store |
| DenseStore.SparseAtStart | src/lib.rs:147-148 | the trigger `count*2 < len && len > 32` is exactly sparseness of the whole store |
| DenseStore.NoCompaction | src/lib.rs:148 | when the trigger does not fire, nothing is retired and the overflow store gains nothing |
| DenseStore.CountSomeSnoc | src/lib.rs:128-129 | pushing a slot adds one to the count iff it is populated |
| DenseStore.CountSomeDrop | src/lib.rs:157-159 | the count from a slot on is the slot's own plus the count after it, so a migration decrement does not underflow |
| DenseStore.CountSomeUpdate | src/lib.rs:141-145 | overwriting a slot changes the count by the change in that slot's population, so a removal decrement does not underflow |
| DenseStore.DenseEntriesSnoc | src/lib.rs:128-130 | pushing a slot adds its entry, if any, under identifier `first + |s|` |
| DenseStore.PrefixEntriesStep | src/lib.rs:156-158 | retiring one more slot adds its entry, if any, under `idx + first` |
| DenseStore.DenseEntriesUpdate | src/lib.rs:141 | overwriting slot `i` sets or removes exactly identifier `first + i` |
| DenseStore.DenseEntriesSplit | src/lib.rs:152-174 | the entries of a prefix of length `k` and those of the suffix re-based at `first + k` make up the entries of the whole store; the prefix's identifiers are below `first + k` |
| DenseStore.DenseEntriesCons | src/lib.rs:84-87 | the entries of a store are its first slot's entry plus those of the rest, re-based one higher |
| DenseStore.DenseYield | src/lib.rs:83-90 | the dense phase of the iterator yields one pair per populated slot, as many as the slot count |
| DenseStore.DenseYieldAscends | src/lib.rs:83-90 | the dense phase yields identifiers in strictly ascending order, none below its start |
| DenseStore.DenseYieldEnumerates | src/lib.rs:83-90 | the dense phase lists every live dense entry exactly once |
| DenseStore.WalkStep | src/lib.rs:155-173 | one slot of the pass: the cutoff never shrinks and grows only at the last slot before it, staying within the store; `count` drops by one exactly when a populated slot before the cutoff migrates; the overflow keys gain exactly `idx + first` for such a slot; the new dense store grows by one exactly for a slot at or after the cutoff |
| DenseStore.CompactionWalk | src/lib.rs:152-173 | the whole pass from slot `idx`: the cutoff is monotone and stays within the store, `count` never increases, overflow keys only grow, and the new dense store gains at most one slot per remaining slot |
| DenseStore.WalkMigrate | src/lib.rs:156-169 | one migration step of the pass, with its possible cutoff extension, keeps the pass invariant |
| DenseStore.WalkKeep | src/lib.rs:170-172 | one keeping step of the pass keeps the pass invariant |
| DenseStore.WalkReachesCutoff | src/lib.rs:152-173 | from any state satisfying the pass invariant, the pass ends at the final cutoff. The slots after it are kept, their count remains, and the retired live entries are in the overflow store |
| DenseStore.CompactionWalkResult | src/lib.rs:149-174 | the pass, started at half the store on a sparse store, retires exactly `ShrinkCount` slots, migrating their live entries, and keeps the rest |

## Left out

- FNV hashing and the hash map's internals: the overflow store is a Dafny `map<nat, T>`. Its iteration order is any enumeration of its entries, chosen by `Enumerate`.
- The serde and `Debug` derives: they are serialization glue outside the container's logic.
- `usize` overflow: identifiers and counters are `nat`. `first_id + len - 1` and `idx + first_id` cannot wrap, and the source does not handle their wrap-around either.
- `Vec::with_capacity`, the buffer swap and memory release: only the resulting sequence contents are modelled.
- Lifetimes and borrowing:
  - `ExpirationList.GetMut` returns whether the identifier was live instead of a mutable reference. It models a write through that reference (the in-place update), not the reference itself.
  - The iterator copies the dense store and an enumeration of the overflow store when it is created. The code borrows them instead; the borrow forbids mutation during iteration, so nothing observable differs.
- `new` delegates to `default`, and both are the one constructor.
- The 1024- and 10,000-element test scenarios (src/lib.rs:212-286) are not unfolded literally. The general contracts of `Add`, `Remove`, `Get` and the iteration lemmas state what those tests check. The concrete counts (`first_id` of 768 and so on) are not computed.

## Findings

| source | as written | input that shows it | evidently intended | confidence | as-written member | corrected member |
|---|---|---|---|---|---|---|
| src/lib.rs:201 | `contains` looks up `self.list.get(id)`, indexing the dense store by the identifier itself | the state that the test at src/lib.rs:213-233 reaches: `first_id` 768, dense length 256. Id 900 is live there (it was never removed, and `get` finds it at index 132), but `contains(900)` indexes 900 beyond the 256 slots and returns false | index with `id - first_id`, as `get` does at src/lib.rs:185 | high; not executed | ExpirationLists.ContainsMissesLiveId | ExpirationLists.ExpirationList.ContainsIntended |
