# LRU cache, verified in Dafny

This project models `LRUCache.js`, a least-recently-used cache object.

The cache keeps two structures:

- **`items`** is a `Map` from each key to a `CacheItem` (`key`, `value`, `prev`, `next`).
- **The recency chain** links those items into a doubly linked list between two sentinel items:
  - `rootNode` comes first, and the item just after it is the least recently used;
  - `tailNode` comes last, and the item just before it is the most recently used.

The capacity lives beside the object. Its setter coerces the argument with the unsigned right shift `>>> 0`, which is ToUint32 in section 7.1.7 of ECMA-262. It raises 0 to 1. When the capacity shrinks, it evicts least recently used items until the cache fits.

The operations are:

- `get` marks a key as most recently used and returns its value, or `null`.
- `put` stores a value. If the cache is full it first evicts the least recently used key.
- The helpers behind them: `removeLeastRecent`, `setMostRecent` and `createNewItem`.

The project has four modules:

- **`CapacityCoercion`** (`capacity.dfy`) models the two coercions of the capacity argument as pure functions:
  - truthiness, in the constructor's `capacity || defaultCapacity`;
  - ToUint32 followed by the floor at 1, in the setter.
- **`Recency`** (`recency.dfy`) is the abstract cache: the keys from least to most recent, their values and the capacity. It holds:
  - one function per operation;
  - lemmas stating what `get`, `put`, eviction and the capacity setter promise.
- **`Chain`** (`chain.dfy`) is the linked representation.
  - The `CacheItem` objects are slots of a sequence. An object reference becomes a slot index, and `null` becomes `-1`. Slot 0 is `rootNode` and slot 1 is `tailNode`.
  - `Consistent` is the representation invariant:
    - the `next` links walk from `rootNode` to `tailNode` through distinct slots;
    - the `prev` links walk the same path backwards;
    - the table maps exactly the keys on the path to their slots;
    - the size stays within the capacity.
  - For each group of link writes in the source, one lemma proves that the invariant survives and that the abstract view changes as the matching `Recency` function says.
- **`LRU`** (`lru.dfy`) holds the class `LRUCache`.
  - Its fields are `items`, `slots` and the capacity.
  - Its methods perform the source's writes one at a time.
  - Each method is proved against its `Recency` function through ghost fields for the path, the key order and the contents.

Two statements of the source do not do what the code around them evidently intends. They are listed under Findings.

- Each one is modelled twice: once as written, with a lemma that exhibits the defect, and once corrected.
- The class's `Get` and `Put` use the corrected versions.

## Model

| member | source | states |
|---|---|---|
| CapacityCoercion.ToUint32 | LRUCache.js:40 | `c >>>= 0` yields a value in [0, 2^32) congruent modulo 2^32 to the truncation of a finite argument; NaN, null, the infinities and non-numeric values yield 0 |
| CapacityCoercion.NormalizeCapacity | LRUCache.js:38-42 | the capacity the setter stores lies in [1, 2^32-1]; it equals the argument when that is already in range, is congruent to it modulo 2^32 otherwise, and is 1 when ToUint32 gives 0 |
| CapacityCoercion.InitialCapacity | LRUCache.js:18-19 | a falsy constructor argument gives the default capacity 3; a truthy one goes through the setter's normalisation |
| CapacityCoercion.NormalizeCapacityExamples | tests.js:16-38 | the setter's documented cases: 5 gives 5, 0 gives 1, 17 gives 17, 3.6 gives 3, null gives 1, Infinity gives 1; also -1 gives 2^32-1 and 2^32+7 gives 7 |
| CapacityCoercion.InitialCapacityExamples | tests.js:11-14 | no argument, 0 and NaN give the default 3; Infinity gives 1; -1 gives 2^32-1 |
| Recency.Touch | LRUCache.js:95-104 | the abstract `setMostRecent`: the key order with the key moved to the most recent end; its promises are proved in Recency.TouchMovesToEnd and met by LRU.LRUCache.SetMostRecent |
| Recency.Evict | LRUCache.js:84-89 | the abstract `removeLeastRecent`: the least recent key leaves the order and the table; its promises are proved in Recency.EvictWf and met by Chain.EvictStep |
| Recency.Insert | LRUCache.js:111-118 | the abstract `createNewItem`: the key appended as most recent and registered with its value; its promises are proved in Recency.InsertWf and met by Chain.AppendStep |
| Recency.Get | LRUCache.js:59-66 | the abstract `get`: the stored value and the touched cache, or none and the cache unchanged; its promises are proved in Recency.GetAbsent and Recency.GetPresent |
| Recency.Put | LRUCache.js:73-82 | the abstract `put` with the existing-key test read as membership; its promises are proved in Recency.PutWf, Recency.PutThenGet, Recency.PutExisting and Recency.PutNew |
| Recency.ShrinkTo | LRUCache.js:46-48 | the abstract eviction loop of the setter; its promises are proved in Recency.ShrinkToKeepsMostRecent |
| Recency.SetCapacity | LRUCache.js:38-51 | the abstract capacity setter; its promises are proved in Recency.SetCapacityEffect |
| Recency.Empty | LRUCache.js:9-20 | the abstract new cache; its promises are proved in Recency.EmptyWf |
| Recency.PutAsWritten | LRUCache.js:73-82 | the abstract `put` as the source writes it, whose stored-key branch is never taken; its consequences are proved in Recency.PutAsWrittenBreaksCache and Recency.PutAsWrittenAgrees |
| Chain.NewItem | LRUCache.js:126-131 | `new CacheItem(key, value)`: the key and the value with both links `null`; used by LRU.LRUCache.CreateNewItem and the constructor |
| Recency.SizeIsOrderLength | LRUCache.js:46 | in a well-formed cache the table's size equals the number of keys on the recency chain |
| Recency.EmptyWf | LRUCache.js:9-20 | a new cache is well-formed and empty, with the default capacity when the argument is falsy |
| Recency.TouchMovesToEnd | LRUCache.js:95-104 | marking a key most recent keeps the keys, their number and their distinctness, puts the key last and leaves the relative order of all other keys unchanged |
| Recency.EvictWf | LRUCache.js:84-89 | eviction keeps the cache well-formed, removes exactly the least recent key and shortens the chain by one |
| Recency.InsertWf | LRUCache.js:111-118 | appending a new key to a cache that has room keeps it well-formed |
| Recency.GetAbsent | LRUCache.js:59-66 | `get` of an absent key returns null and changes nothing |
| Recency.GetPresent | LRUCache.js:59-66 | `get` of a present key returns its stored value, keeps the contents and the capacity, makes the key most recent and leaves the order of the others unchanged |
| Recency.PutWf | LRUCache.js:73-82 | `put` keeps the cache well-formed and never lets the size exceed the capacity |
| Recency.PutThenGet | LRUCache.js:73-82 | after `put(k, v)`, `get(k)` returns `v`, and `k` is the most recent key |
| Recency.PutExisting | LRUCache.js:74-76 | `put` of a stored key replaces only its value, keeps the key set and the size, makes it most recent and leaves the order of the others unchanged |
| Recency.PutNew | LRUCache.js:77-80 | `put` of a new key appends it as most recent after evicting the least recent key exactly when the cache is full; other values are unchanged |
| Recency.GetProtectsFromEviction | LRUCache.js:59-82 | in a full cache, reading the least recent key makes the next `put` of a new key evict the second least recent key instead |
| Recency.ShrinkToKeepsMostRecent | LRUCache.js:44-49 | the setter's eviction loop keeps exactly the `n` most recent keys, with their values, and a well-formed cache |
| Recency.SetCapacityEffect | LRUCache.js:38-51 | the setter stores the normalised capacity and keeps the most recent keys up to it, with their values; a cache that already fits keeps everything |
| Recency.PutFreshKeepsMostRecent | LRUCache.js:73-82 | a run of `put`s of distinct new keys leaves exactly the `capacity` most recent of the old and new keys, in order |
| Recency.FillScenario | tests.js:40-43 | with capacity 5, ten `put`s of distinct keys into an empty cache leave 5 entries, the last five keys |
| Recency.ShrinkScenario | tests.js:45-47 | lowering a cache of 5 entries to capacity 2 leaves 2 entries, the two most recent |
| Recency.CapacityTestScenario | tests.js:40-47 | the two steps together: capacity 5, ten `put`s, capacity 2 leave the last two keys |
| Recency.PutAsWrittenBreaksCache | LRUCache.js:74 | with the source's `hasOwnProperty` test, `put` of a stored key breaks the cache's invariant and, in a full cache, evicts a different key; the corrected `put` keeps it well-formed with the same keys |
| Recency.PutAsWrittenOldestKey | LRUCache.js:74-80 | the one case where the source's `put` of a stored key matches the corrected one: a full cache and the least recent key |
| Recency.PutAsWrittenAgrees | LRUCache.js:73-82 | the source's `put` equals the corrected one if and only if the key is new, or the cache is full and the key is the least recent |
| Chain.OrderDistinct | LRUCache.js:117 | in a consistent cache no key occurs twice on the chain |
| Chain.ConsistentWf | LRUCache.js:10-16 | a consistent linked cache is a well-formed abstract cache: the table's keys are the stored keys, and its size is the chain's length |
| Chain.UnlinkFirstLinked | LRUCache.js:85-87 | unlinking the item after `rootNode` leaves a doubly linked chain without it |
| Chain.DropFirstIndexed | LRUCache.js:88 | deleting the evicted key from the table keeps table and chain in agreement |
| Chain.EvictStep | LRUCache.js:84-89 | `removeLeastRecent` keeps the cache consistent, removes exactly the least recent key from the table and has the abstract effect of eviction |
| Chain.MovedToEndDistinct | LRUCache.js:95-104 | moving one item of the chain to the place before `tailNode` keeps the items distinct |
| Chain.TouchFields | LRUCache.js:96-103 | the `prev` and `next` field of every slot after the corrected `setMostRecent` writes, and that keys and values are untouched |
| Chain.TouchNextLinks | LRUCache.js:98-103 | after those writes the `next` links follow the chain with the item moved before `tailNode` |
| Chain.TouchPrevLinks | LRUCache.js:98-103 | after those writes the `prev` links follow the same chain backwards |
| Chain.TouchLinked | LRUCache.js:95-104 | the corrected `setMostRecent` leaves a doubly linked chain, the old one with the item moved before `tailNode` |
| Chain.TouchIndexed | LRUCache.js:96 | moving an item keeps the table pointing at the right slots |
| Chain.TouchStep | LRUCache.js:95-104 | the corrected `setMostRecent` keeps the cache consistent |
| Chain.TouchAsWrittenDropsItem | LRUCache.js:98-103 | for every item, the source's five writes leave a forward walk from `rootNode` to `tailNode` that skips it, while `tailNode.prev` names it; the item before `tailNode` on the walk (its predecessor when it was the most recent, the old last item otherwise) points at `tailNode` |
| Chain.TouchAsWrittenStep | LRUCache.js:95-104 | the same for any stored key of a consistent cache: the forward walk is the old chain without the key's slot |
| Chain.TouchAsWrittenOnlyItem | LRUCache.js:98-103 | in a cache of one item, touching it as written leaves `rootNode.next == tailNode` while `tailNode.prev` names the item, so the next eviction takes `tailNode` itself |
| Chain.AppendFields | LRUCache.js:112-116 | the fields of every slot after `createNewItem`'s writes: the new slot holds key and value between the old last item and `tailNode` |
| Chain.AppendLinked | LRUCache.js:111-116 | `createNewItem` leaves a doubly linked chain with the new slot before `tailNode` |
| Chain.AppendIndexed | LRUCache.js:117 | registering the new slot keeps table and chain in agreement |
| Chain.AppendStep | LRUCache.js:111-118 | `createNewItem` always leaves a doubly linked chain with the new slot before `tailNode` and the old slots' keys and values in place; for a new key that fits, it keeps the cache consistent and has the abstract effect of inserting the key as most recent |
| Chain.AppendKeepsStored | LRUCache.js:111-118 | when `createNewItem` runs for a stored key, the key's old slot stays on the chain with its key while the table names the new slot |
| Chain.ValueStep | LRUCache.js:75 | overwriting a stored item's value keeps the cache consistent and updates the contents |
| Chain.CapacityStep | LRUCache.js:50 | storing a capacity no smaller than the size keeps the cache consistent |
| Chain.EmptyStep | LRUCache.js:11-16 | two sentinels linked to each other and an empty table form a consistent empty cache |
| LRU.LRUCache.constructor | LRUCache.js:9-20 | a new cache is consistent and empty, with its sentinels linked to each other and the capacity that the setter gives for the argument, or for the default when the argument is falsy |
| LRU.LRUCache.Capacity | LRUCache.js:32-34 | the stored capacity lies in [1, 2^32-1] and bounds the number of stored items |
| LRU.LRUCache.SetCapacity | LRUCache.js:38-51 | the setter keeps the cache consistent and has the abstract effect `Recency.SetCapacity`: its loop evicts least recent items until the size fits the normalised capacity |
| LRU.LRUCache.Get | LRUCache.js:59-66 | `get` keeps the cache consistent and returns what `Recency.Get` returns, with the same new state; for an absent key it returns none and leaves table and chain untouched |
| LRU.LRUCache.Put | LRUCache.js:73-82 | `put`, with the existing-key test corrected, keeps the cache consistent and has the abstract effect `Recency.Put` |
| LRU.LRUCache.PutAsWritten | LRUCache.js:73-82 | the source's `put`: the key always gets a new item and the table names it; in a full cache the least recent key is lost even when the stored key was another one; a stored key that survives the eviction is linked twice, its old item and the new one both on the chain from `rootNode` |
| LRU.LRUCache.RemoveLeastRecent | LRUCache.js:84-89 | `removeLeastRecent` keeps the cache consistent, deletes exactly the least recent key from the table and has the abstract effect of eviction |
| LRU.LRUCache.SetMostRecent | LRUCache.js:95-104 | the corrected `setMostRecent` keeps the cache consistent, leaves the table and the contents unchanged and moves the key to the most recent place |
| LRU.LRUCache.SetMostRecentAsWritten | LRUCache.js:95-104 | the source's `setMostRecent`, for every stored key: the table is unchanged and `tailNode.prev` names the key's item, but the forward walk from `rootNode` is the old chain without it |
| LRU.LRUCache.CreateNewItem | LRUCache.js:111-118 | `createNewItem` appends a slot holding the key and value, links it before `tailNode` (the chain stays doubly linked, old slots keep their keys and values) and maps the key to it; for a new key that fits, the cache stays consistent and gains the key as most recent |

## Left out

- JavaScript's conversion of the capacity argument to a number (a numeric string such as `"17"` in tests.js:24, or an object with `valueOf`) is not modelled. The argument arrives already classified as a `CapacityInput`: absent, an integer, a non-integral finite number (with its truncation), or some other value (with its truthiness).
- The WeakMap `capacityValues` becomes a field of the object. The property descriptor and the prototype machinery are not modelled.
- Evicted `CacheItem` objects are not garbage-collected: their slots stay in the arena and are never reused. The model captures object identity only through slot indices.
- Keys are strings, as documented. Values have any type with a default value, because the sentinels carry a placeholder value (`0` in the source).
- `get` returns `null` for an absent key. The model returns `None` instead, so a stored `null` value cannot be confused with a miss.
- The tape test runner and its output stream are not modelled. Its assertions are stated as lemmas over concrete inputs.
- CapacityCoercion.NormalizeCapacityExamples and CapacityCoercion.InitialCapacityExamples: these state concrete cases only. The general laws are in the contracts of `ToUint32`, `NormalizeCapacity` and `InitialCapacity`.
- LRU.LRUCache.CreateNewItem: consistency is promised only for a new key that fits, which is how `put` calls it. For a stored key, the source leaves the old item on the chain while the table forgets it.
- LRU.LRUCache.PutAsWritten: states the new item, the lost key and the doubly linked stored key, not every field of the broken state. The abstract consequences are proved in Recency.PutAsWrittenBreaksCache and Recency.PutAsWrittenAgrees.
- LRU.LRUCache.SetMostRecentAsWritten: states the forward walk and `tailNode.prev`, not every field of the result.

## Findings

| source | as written | input that shows it | evidently intended | confidence | as-written member | corrected member |
|---|---|---|---|---|---|---|
| LRUCache.js:101-103 | `setMostRecent` sets the item's `prev` and `next` and `tailNode.prev`, but never sets `tailNode.prev.next = item`, so every touched item leaves the forward chain | a cache holding `a` then `b`, then `get("a")`: `rootNode.next` is `b` and `b.next` is still `tailNode`, so `a` can never be evicted; with capacity 1, `put("a", 1)`, `get("a")`, `put("b", 2)`: `rootNode.next` is `tailNode`, so `removeLeastRecent` takes `tailNode` and line 87 reads `null.prev`, a TypeError | the old last item points at the moved item, which becomes the most recent one | high; not executed | LRU.LRUCache.SetMostRecentAsWritten, Chain.TouchAsWrittenDropsItem, Chain.TouchAsWrittenOnlyItem | LRU.LRUCache.SetMostRecent, Chain.TouchStep |
| LRUCache.js:74 | `this.items.hasOwnProperty(key)` tests the Map object's own properties, not its entries, so it is false for every stored key | capacity 2, `put("a", 1)`, `put("b", 2)`, `put("b", 3)`: the full-cache branch evicts `a`, and `b` is linked twice | the existing-key branch runs for a stored key: update its value and mark it most recent, as `get` tests with `has` | high; not executed | LRU.LRUCache.PutAsWritten, Recency.PutAsWrittenBreaksCache | LRU.LRUCache.Put, Recency.PutExisting |
