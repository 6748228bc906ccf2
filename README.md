# Two map engines: a chained hash table and a top-down red-black tree

This project models the two map implementations of the `EPAM2015_lab9`
package, `MyHashMap` and `MyTreeMap`. Both serve the `MyMap` operations
(`put`, `get`, `containsKey`, `remove`, `clear`, `entryIterator`). Keys are
Java `Integer`s, written here as `int` in their natural order. A stored value
may be Java `null`, written `None`. Every map is tied to a ghost abstraction
`Contents()`, a `map<int, Option<V>>`, and each operation is proved against
it.

- `common.dfy` (`MapCommon`): `Option`, the three unchecked exceptions the
  engines throw (`Fault`) and `Result`.
- `hashmap.dfy` (`HashMaps`): the bucket array is an `array<seq<Entry<V>>>`.
  Each bucket holds its chain from head to tail. The bucket count is always a
  power of two no larger than 2^30. A key lives in bucket `hash & (length - 1)`.
  `put` overwrites a value in place or appends at the chain's tail, then grows
  the table when it is overloaded. Growing re-inserts every entry with its
  cached hash into a new map, through that map's `put`. `remove` unlinks an
  entry. The fail-fast iterator walks the buckets in ascending order and each
  chain from head to tail. It is tracked by its position (bucket and index in
  the chain), not by a reference to the entry it returned last, and entries
  are values, not shared objects; "## Left out" says what this changes.
- `shape.dfy`, `search.dfy`, `links.dfy`, `pullup.dfy`, `colors.dfy`
  (`TreeShapes`, `TreeSearch`, `TreeLinks`, `TreePullUp`, `TreeColors`): the
  tree as a value (`Tree`).
  These files cover:
  - its in-order sequence of entries, `Ids`;
  - search order (`Ascending`) and the map a tree denotes (`MapOf`);
  - the lookup path for a key (`OnPath`, `SearchLen`);
  - rotations, and the subtree `pullUp` produces (`PulledUp`);
  - the colour rule that no red entry has a red child (`NoRedRed`), and how
    `flipColor`, `pullUp` and a new red leaf affect it;
  - how the arena's `left`/`right`/`parent` references describe a tree
    (`Linked`).
- `treemap.dfy` (`TreeMaps`): `MyTreeMap` over an arena.
  - Slot `i` holds one `SimpleEntry`: its key, value, colour, and left, right
    and parent references. `NIL` (-1) stands for `null`.
  - A ghost `shape` records which entry sits where. `Wf()` ties the references
    to it and keeps the keys ascending along the in-order.
  - `Valid()` adds a black root.
  - Rotations are rewrites of the reference sequences.
  - Insertion follows the source step by step. On the way down,
    `findInsertPoint` flips colours and pulls up red-red pairs. The new key is
    then hung as a red leaf, with one last fix-up. Starting from a tree in
    which no red entry has a red child, `put` leaves such a tree again. The
    proof carries a guard down the lookup path: wherever `flipColor` runs,
    the parent and the uncle of the flipped entry are not both red, so the
    one red-red pair a flip or a new leaf can create is always mended by a
    single `pullUp`. An entry is *guarded* (`Guarded`) when its parent and uncle are
    not both red whenever its own children are both red, and when a red
    sibling beside it means the lookup's next entry is *calm* (`Calm`: a
    black entry with no red child).
  - `minimal`/`successor` and the entry iterator walk the in-order.

Nothing in the two engines reads a clock, the network or randomness.
Java's `hashCode` of an `Integer` is the integer itself, which is `Hash`.

Some behaviours are modelled exactly as the code has them:
- The hash map's `remove` lowers `size` and bumps `modCount` only when the
  removed value is not `null`. `size` can then exceed the number of entries.
- A later growth copies entries while its iterator's count is below `size`,
  so it runs out of entries. The model's `put` then ends in the
  `NoSuchElementException` that `nextBasketHead` throws (`Err(NoSuchElement)`).
- The tree's `clear` leaves `modCount` alone.
- The tree's `remove` is a stub that returns `null`.

## Model

| member | source | states |
|---|---|---|
| HashMaps.TableSizeFor | MyHashMap.java:130-139 | the result is a power of two in [1, 2^30]; for a capacity up to 2^30 it is the smallest such power not below the capacity (1 for capacity <= 1); above 2^30 it is 2^30 |
| HashMaps.BitSet | MyHashMap.java:133 | `(mask & c) > 0` for `c < 2 * mask` holds exactly when `c >= mask` |
| HashMaps.IndexFor | MyHashMap.java:151 | the bucket index `hash & (length - 1)` lies in [0, length) |
| HashMaps.CeilDiv | MyHashMap.java:297-298 | `(int) Math.ceil(size / loadFactor)` saturates at `Integer.MAX_VALUE`; below it, that many buckets are not overloaded by `size` entries |
| HashMaps.KeyIndex | MyHashMap.java:153-158 | the index of the first entry of the chain with the key, or the chain length; no earlier entry has the key |
| HashMaps.DoubledCapacity | MyHashMap.java:297-299 | a doubled power-of-two capacity below 2^30 is kept as it is by the constructor's rounding |
| HashMaps.DefaultExceeds | MyHashMap.java:218 | with load factor 0.75, `size > length * loadFactor` is `4 * size > 3 * length` |
| HashMaps.ShrinkKeepsBalance | MyHashMap.java:250-251 | a smaller size never overloads a table that the larger size did not, so `remove` keeps the load bound |
| HashMaps.TableLookup | MyHashMap.java:149-159 | a key is bound in the whole table exactly as it is in the chain of its own bucket, so scanning that chain alone is enough |
| HashMaps.TablePut | MyHashMap.java:198-217 | putting into the key's bucket keeps every bucket well formed and turns the map into `m[key := value]`; the key was present iff the scan finds it, and the entry count grows by one exactly for a new key |
| HashMaps.TableRemove | MyHashMap.java:226-249 | unlinking from the key's bucket keeps every bucket well formed and turns the map into `m - {key}`; the table is untouched when the key is absent |
| HashMaps.AppendEntry | MyHashMap.java:213-217 | appending a new key at a chain's tail binds it and adds one entry |
| HashMaps.OverwriteEntry | MyHashMap.java:203-206 | overwriting a chain entry's value rebinds that key only, with the same entry count |
| HashMaps.UnlinkEntry | MyHashMap.java:234-247 | unlinking a chain entry removes that key only and one entry |
| HashMaps.MissingKey | MyHashMap.java:153-159 | a key no entry of its bucket carries is not in the map |
| HashMaps.StepInChain | MyHashMap.java:80 | following `next` along the current chain reaches the next entry of the iteration order |
| HashMaps.StepToBucket | MyHashMap.java:80-89 | at a chain's end, the head of the next non-empty bucket is the next entry of the iteration order |
| HashMaps.StepPastEnd | MyHashMap.java:85-91 | with no non-empty bucket left, every entry has been returned |
| HashMaps.SetValueAt | MyHashMap.java:34-38 | setting the value of the entry last returned keeps the iteration position and rebinds just its key |
| HashMaps.HashMap.CountIsCardinality | MyHashMap.java:101 | the map holds one entry per key, and `size` is never below that count |
| HashMaps.HashMap.constructor | MyHashMap.java:104-107 | an empty map of 16 buckets with load factor 0.75 |
| HashMaps.HashMap.Sized | MyHashMap.java:121-127 | an empty map whose bucket count is `tableSizeFor(cap)`, or 2^30 above that |
| HashMaps.HashMap.New | MyHashMap.java:109-128 | IllegalArgumentException exactly for a negative capacity or a load factor that is not positive (NaN included); otherwise an empty map as `Sized` |
| HashMaps.HashMap.Clear | MyHashMap.java:141-146 | a fresh table of the same length and no entries, `size` 0, `modCount` one higher |
| HashMaps.HashMap.ContainsKey | MyHashMap.java:148-160 | true exactly when the key is in the map |
| HashMaps.HashMap.Get | MyHashMap.java:173-185 | the stored value, or `null` for an absent key |
| HashMaps.HashMap.Put | MyHashMap.java:192-196 | binds the key to the value; an existing key returns its old value and leaves `size` and `modCount` alone; a new key adds one to `size` and `modCount` and returns `null`, unless growth runs into the stale `size` |
| HashMaps.HashMap.PutHashed | MyHashMap.java:198-223 | as Put, with the table given by the bucket update when no growth happens, and the doubled table after growth with load factor 0.75 |
| HashMaps.HashMap.GrownCapacity | MyHashMap.java:297-298 | twice the length for load factor 0.75; otherwise a capacity above the current length such that every longer table is not overloaded |
| HashMaps.HashMap.Resize | MyHashMap.java:296-306 | the same map in a longer table that is not overloaded, or a NoSuchElementException exactly when `size` overstates the entry count |
| HashMaps.HashMap.Rehash | MyHashMap.java:299-304 | builds a longer, well-formed table holding exactly the map's entries, unless `size` overstates the entry count |
| HashMaps.HashMap.CopyInto | MyHashMap.java:299-304 | the copy loop fills the new map with exactly this map's contents and count |
| HashMaps.HashMap.CopyNext | MyHashMap.java:301-303 | one copy step puts the entry at the iterator's position into the new map, and fails only past the last entry |
| HashMaps.HashMap.CopyComplete | MyHashMap.java:301-305 | once the iterator's count reaches `size`, the new map holds exactly this map's contents |
| HashMaps.HashMap.Remove | MyHashMap.java:225-255 | unbinds the key and returns its old value (`null` when absent); `size` and `modCount` drop by one only when that value is not `null`; a table that was not overloaded stays so |
| HashMaps.HashMap.FindKey | MyHashMap.java:202-212 | the chain scan stops at the first entry with the key, or at the chain's end |
| HashMaps.HashIterator.constructor | MyHashMap.java:60-65 | before the first entry, remembering the map's `modCount` |
| HashMaps.HashIterator.HasNext | MyHashMap.java:67-70 | compares the iterator's count with the map's `size` field, not with the entries present: while `size` is exact, true exactly when entries remain; false only once every entry has been returned |
| HashMaps.HashIterator.NextBasketHead | MyHashMap.java:85-92 | finds the first non-empty bucket after the current one, every bucket skipped being empty; fails exactly when all remaining buckets are empty |
| HashMaps.HashIterator.Next | MyHashMap.java:72-83 | NoSuchElementException once `count >= size`, ConcurrentModificationException after a structural change, otherwise the entry after the iterator's position in bucket-then-chain order (position-based, see "## Left out") |
| HashMaps.HashIterator.SetValue | MyHashMap.java:34-38 | `setValue` on the entry last returned by an iterator in step with its map rebinds its key, returns the old value and keeps the iteration position (other entries, see "## Left out") |
| TreeShapes.RotateRightIds | MyTreeMap.java:326-350 | a right rotation keeps the in-order sequence of entries |
| TreeShapes.RotateLeftIds | MyTreeMap.java:352-376 | a left rotation keeps the in-order sequence of entries |
| TreeSearch.InsertLeafOrder | MyTreeMap.java:153-159 | a key that is absent and lands below `e` fits between its in-order neighbours, so hanging it there keeps the keys ascending and binds it in the map |
| TreeSearch.AscendingKeysOf | MyTreeMap.java:378-395 | read along an ascending in-order, the keys rise strictly and each key appears once |
| TreePullUp.PulledUpIds | MyTreeMap.java:281-306 | pullUp keeps the in-order sequence of the subtree it rearranges |
| TreePullUp.PullUpPath | MyTreeMap.java:184-199 | after a pullUp the entry is still on the lookup path for the key, and the rest of the lookup grows by at most one entry, and only for an inner grandchild |
| TreePullUp.FixPath | MyTreeMap.java:183-200 | one repair step of the descent keeps the entries and the lookup path, and bounds the remaining descent so that the loop terminates |
| TreeColors.FlipLocal | MyTreeMap.java:273-279 | flipping an entry with two red children in a tree with no red-red pair leaves both children black with no red child (calm), and the flipped entry as the only possible red child of a red parent |
| TreeColors.PullOuterLeft | MyTreeMap.java:296-305 | pullUp of an outer left grandchild that is the one red child of a red parent, with a non-red uncle and children, leaves a subtree with no red-red pair and a black top |
| TreeColors.PullOuterRight | MyTreeMap.java:296-305 | the mirror image of PullOuterLeft |
| TreeColors.PullInnerLeft | MyTreeMap.java:285-295 | pullUp of an inner left grandchild under the same conditions leaves a subtree with no red-red pair and a black top |
| TreeColors.PullInnerRight | MyTreeMap.java:285-295 | the mirror image of PullInnerLeft |
| TreeColors.PullUpFree | MyTreeMap.java:281-306 | in the whole tree, pullUp of the one red child of a red parent whose uncle and children are not red leaves no red entry with a red child |
| TreeColors.PulledCalm | MyTreeMap.java:285-305 | pullUp recolours neither child of the pulled entry nor anything below them |
| TreeColors.InnerNext | MyTreeMap.java:285-295 | after pullUp of an inner grandchild, the lookup for a key takes two steps from the new top and reaches the child of the grandchild it would have reached before |
| TreeColors.HangFree | MyTreeMap.java:153-159 | a red leaf hung below an entry of a tree with no red-red pair is the only possible red child of a red parent |
| TreeColors.Cleared | MyTreeMap.java:240-244 | when the one possible exception is not a red entry under a red parent, no red entry has a red child |
| TreeColors.ParentPair | MyTreeMap.java:246-251 | in a tree with no red-red pair, isDoubleRed is false for every entry below the root |
| TreeMaps.AttachWf | MyTreeMap.java:153-161 | the new leaf's references describe the tree with the leaf hung below its parent, still in search order, with one more entry and the map `old[k := v]` |
| TreeMaps.TreeMap.SizeIsCardinality | MyTreeMap.java:139-164 | `size` is the number of keys in the map |
| TreeMaps.TreeMap.constructor | MyTreeMap.java:97-103 | an empty map, `size` 0, `modCount` 0, with no red-red pair |
| TreeMaps.TreeMap.Clear | MyTreeMap.java:106-109 | no entries and `size` 0, with `modCount` unchanged and no red-red pair |
| TreeMaps.TreeMap.FindEntry | MyTreeMap.java:205-218 | NIL exactly when the key is absent, otherwise an entry of the tree holding the key |
| TreeMaps.TreeMap.ContainsKey | MyTreeMap.java:112-114 | true exactly when the key is in the map |
| TreeMaps.TreeMap.Get | MyTreeMap.java:128-131 | the stored value, or `null` for an absent key |
| TreeMaps.TreeMap.IsRight | MyTreeMap.java:225-227 | true exactly when `x` is its parent's right child in the tree, false exactly when it is the left one |
| TreeMaps.TreeMap.HasRedSuccessors | MyTreeMap.java:253-261 | true exactly when both children exist and are red |
| TreeMaps.TreeMap.IsDoubleRed | MyTreeMap.java:246-251 | true exactly when `x` and its parent are both red |
| TreeMaps.TreeMap.FlipColor | MyTreeMap.java:273-279 | toggles both children and `x` unless it is the root; the tree, its links and the entries are unchanged and the root stays black |
| TreeMaps.TreeMap.RelinkRight | MyTreeMap.java:333-349 | the reference rewrites of roR turn the tree into its right rotation at `top`, with consistent links |
| TreeMaps.TreeMap.RotateRight | MyTreeMap.java:326-350 | NIL is a no-op; a missing left child is IllegalArgumentException with nothing changed; otherwise the tree is rotated right at `top` (the root moves when `top` was the root), with consistent links and the same in-order |
| TreeMaps.TreeMap.RelinkLeft | MyTreeMap.java:359-375 | the reference rewrites of roL turn the tree into its left rotation at `top`, with consistent links |
| TreeMaps.TreeMap.RotateLeft | MyTreeMap.java:352-376 | the mirror image of RotateRight |
| TreeMaps.TreeMap.GrandOf | MyTreeMap.java:281-288 | a red entry under a red parent always has a grandparent, because the root is black; its position below it (inner or outer, left or right) matches the `isRight` tests |
| TreeMaps.TreeMap.InnerTurns | MyTreeMap.java:289-295 | the two rotations at the current parent lift an inner grandchild above its parent and grandparent |
| TreeMaps.TreeMap.PullUp | MyTreeMap.java:281-306 | the grandparent's subtree becomes the pulled-up one, the grandparent and (inner) the entry or (outer) its parent change colour, the in-order and the map are kept and the root stays black |
| TreeMaps.TreeMap.FixDuringInsert | MyTreeMap.java:231-238 | the colour flip when both children are red, then a pullUp exactly when the entry is left red under a red parent; the map is kept and the root stays black; on a guarded descent it leaves no red-red pair and the next entry guarded |
| TreeMaps.TreeMap.FlipReady | MyTreeMap.java:232-233 | flipColor on a guarded entry leaves it the only possible red child of a red parent, its children calm, and its parent and uncle not both red |
| TreeMaps.TreeMap.PullReadyHere | MyTreeMap.java:235-236 | the pullUp on the descent finds a grandparent, recolours the entries PullFlips names, and leaves no red-red pair |
| TreeMaps.TreeMap.Pulled | MyTreeMap.java:235-236 | after that pullUp, the next entry of the lookup is guarded |
| TreeMaps.TreeMap.PulledInner | MyTreeMap.java:285-295 | after pullUp of an inner grandchild, which turns black, the next entries of the lookup are guarded |
| TreeMaps.TreeMap.Settled | MyTreeMap.java:235 | after a flip that pulls nothing up, no red entry has a red child |
| TreeMaps.TreeMap.CalmStep | MyTreeMap.java:188-199 | when both children of an entry are calm, the next entry of any lookup is guarded |
| TreeMaps.TreeMap.QuietStep | MyTreeMap.java:231-238 | when fixDuringInsert changes nothing, the guard moves on to the next entry and isDoubleRed is false |
| TreeMaps.TreeMap.FixAfterInsert | MyTreeMap.java:240-244 | a pullUp exactly when the new entry's parent is red; the in-order and the map are kept; a new red leaf whose parent and uncle are not both red leaves no red-red pair |
| TreeMaps.TreeMap.FindInsertPoint | MyTreeMap.java:181-203 | NIL only for an empty tree; otherwise an entry on the lookup path that holds the key exactly when the key is present, or else has no child on the key's side; the map is unchanged; from a tree with no red-red pair it leaves one, and an entry that is not red beside a red sibling |
| TreeMaps.TreeMap.RootGuarded | MyTreeMap.java:182 | the descent starts guarded at the root, which has no parent and is black |
| TreeMaps.TreeMap.GuardNext | MyTreeMap.java:188-199 | the child the lookup moves to is guarded; where there is none, the entry and its sibling are not both red |
| TreeMaps.TreeMap.NewRoot | MyTreeMap.java:140-147 | an empty tree gets a single black root holding the key, with no red-red pair |
| TreeMaps.TreeMap.Attach | MyTreeMap.java:153-161 | a red leaf for the key hangs left of a parent with a greater key and right otherwise; the map becomes `old[k := v]` and `size` grows by one; the leaf is the only possible red child of a red parent, and its parent and that parent's sibling are as red as before |
| TreeMaps.TreeMap.AttachedColors | MyTreeMap.java:153-159 | the new leaf's parent is `e`, only the leaf may be a red child of a red parent, and `e` and its sibling keep their colours |
| TreeMaps.TreeMap.Overwrite | MyTreeMap.java:148-152 | the entry's key is in the map and its old value is returned; the map rebinds that key to the new value and the tree, keys, colours, `size` and `modCount` are unchanged |
| TreeMaps.TreeMap.Put | MyTreeMap.java:139-164 | binds the key to the value with a black root; an existing key returns its old value and keeps `size`, `modCount` and the in-order; a new key returns `null` and bumps `size` and `modCount`; a tree with no red entry under a red parent keeps that property |
| TreeMaps.TreeMap.Remove | MyTreeMap.java:166-169 | returns `null` and changes nothing |
| TreeMaps.TreeMap.Minimal | MyTreeMap.java:397-406 | NIL for NIL; otherwise the first entry, in in-order, of the subtree below `x` |
| TreeMaps.TreeMap.Successor | MyTreeMap.java:378-395 | NIL for NIL and for the last entry; otherwise the entry that follows `x` in the in-order |
| TreeMaps.TreeMap.RightFollows | MyTreeMap.java:391-394 | with a right child, the successor is the leftmost entry below it |
| TreeMaps.TreeMap.LeftAncestorFollows | MyTreeMap.java:382-389 | where the climb stops, the parent follows `x`; there is none exactly when `x` is the last entry |
| TreeMaps.TreeMap.EntryIterator | MyTreeMap.java:176-179 | a fresh iterator at position 0 of the current in-order |
| TreeMaps.TreeMap.InOrderKeys | MyTreeMap.java:64-90 | the keys along the in-order rise strictly and are exactly the map's keys, `size` of them |
| TreeMaps.TreeMap.EntryAt | MyTreeMap.java:86-88 | the entry at position `i` of the in-order holds the `i`-th key and its value |
| TreeMaps.TreeIterator.constructor | MyTreeMap.java:64-71 | positioned at the first entry, remembering the map's `modCount` |
| TreeMaps.TreeIterator.HasNext | MyTreeMap.java:73-76 | true exactly when `nextEntry` is not null, callable in any state (also after a structural change or a `clear`); for a consistent iterator of an unchanged map, exactly when entries remain |
| TreeMaps.TreeIterator.Next | MyTreeMap.java:78-89 | NoSuchElementException past the last entry, ConcurrentModificationException after a structural change, otherwise the key and value at the current in-order position, and the position moves one on |

## Left out

- TreeMaps.TreeMap.Put: the black-height balance (every path from the root to a missing child passes the same number of black entries) is not proved; only the red rule, the black root, search order, link consistency and size are.
- TreeMaps.TreeIterator.Next: it requires the iterator to be consistent with its map. After the tree's `clear`, `modCount` is unchanged but the entries are gone, so an iterator made before the `clear` is not followed; the source would keep walking the detached entries.
- The tree's comparator: `findEntry` always compares by natural order, and `put` uses the comparator. Keys are `int` in natural order, where the two agree. The `MyTreeMap(Comparator)` constructor is the plain one.
- `null` keys: `findEntry(null)` returns `null`, and every other operation throws NullPointerException on a `null` key. Keys are `int`, so neither path exists.
- `containsValue`, `isEmpty`, `size()` and `toString` of both maps, `showMap`, the tree's layout helpers, `checkBlackHeights` and both `main` methods: they render or print, or they read a field.
- `hasBlackSuccessors`, `sibling` and the commented-out `pullDown` of the tree: unused, and deletion is not implemented in the source.
- `setValue` on the tree's entries returned by its iterator: not modelled. The hash map's `setValue` is, within the limits of the HashMaps.HashIterator.SetValue line below.
- HashMaps.HashIterator.Next: the iterator is tracked by position (`curBasket`, `curPos`), while the source follows the returned entry's `next` reference. A `remove` of a key mapped to `null` leaves `modCount` alone, so the iterator stays usable; when the removed entry sat at or before the position in the current chain, the model skips one entry. Example: 0 -> null, 16 -> 1 and 32 -> 2 in bucket 0; `next()`, `remove(0)`, `next()` gives 16 in the source and 32 in the model. Chain nodes have no identity in the model.
- HashMaps.HashIterator.SetValue: it acts only on the entry last returned by an iterator still in step with its map. In the source every entry handed out is a shared object: `setValue` on an earlier one changes the map while that entry is linked, and changes nothing once `remove` unlinked it or a resize copied it into new entries. Entries are values here, so that sharing is not modelled.
- `equals`/`hashCode` of the entries: library behaviour.
- `modCount` and `size` are unbounded integers. Java's 32-bit wrap-around after 2^31 modifications is not modelled.
- HashMaps.LoadFactor: a `float` load factor is a fraction `num / den`; float rounding of `length * loadFactor` and of `Math.ceil(size / loadFactor)` is not modelled.
- The Java `Iterator`, `MyMap` and `Entry` interfaces carry no behaviour of their own and are not modelled as types.
