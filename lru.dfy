/** The cache object of LRUCache.js: the `items` table, the arena of
    `CacheItem` slots holding the recency chain between `rootNode` and
    `tailNode`, and the capacity, all updated in place.

    Each method is proved against the function of module Recency that gives
    its abstract effect. The ghost fields are the abstract view: `Path` (the
    slots met walking from `rootNode` to `tailNode`), `Order` (their keys)
    and `Contents` (the value stored for each key). */
module LRU {
  import opened CapacityCoercion
  import opened Recency
  import opened Chain

  class LRUCache<V(0)> {
    /** The `Map` from key to the slot of its `CacheItem`. */
    var items: map<string, int>
    /** The `CacheItem` objects; slot `RootNode` and slot `TailNode` are the
        two sentinels. */
    var slots: seq<CacheItem<V>>
    /** The capacity, kept in a WeakMap by the source. */
    var capacityValue: nat

    ghost var Path: seq<int>
    ghost var Order: seq<string>
    ghost var Contents: map<string, V>

    ghost function State(): Arena<V>
      reads this
    {
      Arena(slots, items, Path, Order, Contents, capacityValue)
    }

    /** The chain is doubly linked from `rootNode` to `tailNode`, the table
        maps exactly the keys on it to their slots, and the size is within
        the capacity. */
    ghost predicate Valid()
      reads this
    {
      Consistent(State())
    }

    ghost function Abstract(): Cache<string, V>
      reads this
    {
      Cache(Order, Contents, capacityValue)
    }

    /** The constructor (LRUCache.js:9-20): links the two sentinels to each
        other, stores the default capacity, then runs the setter with the
        argument, or with the default when the argument is falsy. */
    constructor (capacity: CapacityInput)
      ensures Valid()
      ensures Abstract() == Empty(capacity)
      ensures slots[RootNode].next == TailNode && slots[TailNode].prev == RootNode
    {
      var zero: V := *;
      items := map[];
      var sentinels := [NewItem("root", zero), NewItem("tail", zero)];
      sentinels := SetNext(sentinels, RootNode, TailNode);
      sentinels := SetPrev(sentinels, TailNode, RootNode);
      slots := sentinels;
      capacityValue := DefaultCapacity;
      Path, Order, Contents := [RootNode, TailNode], [], map[];
      new;
      EmptyStep(State());
      SetCapacity(if Truthy(capacity) then capacity else Integer(DefaultCapacity));
    }

    /** The capacity getter (LRUCache.js:32-34). */
    function Capacity(): (c: nat)
      requires Valid()
      reads this
      ensures 1 <= c <= MaxCapacity
      ensures |Order| <= c && |items| <= c
    {
      ConsistentWf(State());
      capacityValue
    }

    /** The capacity setter (LRUCache.js:38-51): normalise the argument, evict
        least recent items while there are more than the new capacity, store
        it. */
    method SetCapacity(c: CapacityInput)
      requires Valid()
      modifies this
      ensures Valid()
      ensures Abstract() == Recency.SetCapacity(old(Abstract()), c)
    {
      var n := NormalizeCapacity(c);
      if n < capacityValue {
        ConsistentWf(State());
        while |items| > n
          invariant Valid() && capacityValue == old(capacityValue)
          invariant |items| == |Order|
          invariant ShrinkTo(Abstract(), n) == ShrinkTo(old(Abstract()), n)
          decreases |items|
        {
          RemoveLeastRecent();
        }
      }
      ConsistentWf(State());
      CapacityStep(State(), n);
      capacityValue := n;
    }

    /** `get` (LRUCache.js:59-66). */
    method Get(key: string) returns (r: Option<V>)
      requires Valid()
      modifies this
      ensures Valid()
      ensures (r, Abstract()) == Recency.Get(old(Abstract()), key)
      ensures key !in old(items) ==> r == None && slots == old(slots) && items == old(items)
    {
      ConsistentWf(State());
      if key in items {
        SetMostRecent(key);
        ghost var i := SlotOfKey(State(), key);
        r := Some(slots[items[key]].value);
      } else {
        r := None;
      }
    }

    /** `put` (LRUCache.js:73-82). The source tests
        `this.items.hasOwnProperty(key)`, which is false for every entry of a
        Map (see PutAsWritten); this model tests key membership, as `get`
        does and as the doc comment of `put` intends. */
    method Put(key: string, value: V)
      requires Valid()
      modifies this
      ensures Valid()
      ensures Abstract() == Recency.Put(old(Abstract()), key, value)
    {
      ConsistentWf(State());
      if key in items {
        ghost var a := State();
        ghost var i := SlotOfKey(a, key);
        slots := SetValue(slots, items[key], value);
        Contents := Contents[key := value];
        ValueStep(a, State(), key, value);
        SetMostRecent(key);
      } else {
        if |items| == Capacity() {
          RemoveLeastRecent();
          ConsistentWf(State());
        }
        CreateNewItem(key, value);
      }
    }

    /** `put` as the source writes it: the existing-key branch is never
        taken, so a stored key gets a second item, the table forgets the
        first one, and a full cache evicts its least recent key first. */
    method PutAsWritten(key: string, value: V)
      requires Valid()
      modifies this
      ensures key in items && 0 < |slots| && items[key] == |slots| - 1
      ensures slots[|slots| - 1].key == key && slots[|slots| - 1].value == value
      ensures |old(items)| == old(capacityValue) && key != old(Order)[0] ==> old(Order)[0] !in items
      ensures key in old(items) && !(|old(items)| == old(capacityValue) && key == old(Order)[0]) ==>
        && Linked(slots, Path)
        && old(items)[key] in Path && items[key] in Path
        && old(items)[key] != items[key]
        && 0 <= old(items)[key] < |slots| && slots[old(items)[key]].key == key
    {
      ConsistentWf(State());
      if |items| == Capacity() {
        RemoveLeastRecent();
      }
      ghost var a := State();
      ghost var j: nat := 0;
      if key in a.items {
        j := SlotOfKey(a, key);
        assert StoredAt(a, j);
      }
      CreateNewItem(key, value);
      if key in a.items {
        AppendKeepsStored(a, key, j, slots);
      }
    }

    /** `removeLeastRecent` (LRUCache.js:84-89): unlink the item after
        `rootNode` and delete its key from the table. */
    method RemoveLeastRecent()
      requires Valid() && |Order| > 0
      modifies this
      ensures Valid() && |items| == |Order|
      ensures items == old(items) - {old(Order)[0]}
      ensures Abstract() == Evict(old(Abstract()))
    {
      ghost var a := State();
      var item := slots[RootNode].next;
      slots := SetNext(slots, RootNode, slots[item].next);
      slots := SetPrev(slots, slots[item].next, RootNode);
      items := items - {slots[item].key};
      Path := [RootNode] + Path[2..];
      Order := Order[1..];
      Contents := Contents - {a.order[0]};
      EvictStep(a, State());
      ConsistentWf(State());
    }

    /** `setMostRecent` (LRUCache.js:95-104): unlink the key's item and link
        it back in just before `tailNode`.
        DEVIATION from the source: the write `tailNode.prev.next = item` is
        missing there; without it the old last item keeps pointing at
        `tailNode` and the touched item drops out of the forward chain (see
        SetMostRecentAsWritten). */
    method SetMostRecent(key: string)
      requires Valid() && key in items
      modifies this
      ensures Valid() && items == old(items)
      ensures Abstract() == old(Abstract()).(order := Touch(old(Order), key))
    {
      ghost var a := State();
      ghost var i := Neighbours(a, key);
      var item := items[key];
      slots := SetNext(slots, slots[item].prev, slots[item].next);
      slots := SetPrev(slots, slots[item].next, slots[item].prev);
      slots := SetPrev(slots, item, slots[TailNode].prev);
      slots := SetNext(slots, item, TailNode);
      slots := SetNext(slots, slots[TailNode].prev, item);  // missing in the source
      slots := SetPrev(slots, TailNode, item);
      Path := MovedToEnd(Path, i + 1);
      Order := Order[..i] + Order[i + 1..] + [key];
      TouchStep(a, State(), i);
      OrderDistinct(a);
      RemoveAt(a.order, i);
    }

    /** `setMostRecent` exactly as the source writes it (LRUCache.js:95-104).
        For every key the chain breaks: `tailNode.prev` names the touched
        item, but the `next` links from `rootNode` run through all the other
        items to `tailNode` and skip it, so it can never again be evicted.
        In a cache of one item, `rootNode.next` becomes `tailNode`
        (see TouchAsWrittenOnlyItem). */
    method SetMostRecentAsWritten(key: string)
      requires Valid() && key in items
      modifies this
      ensures items == old(items)
      ensures ForwardWalk(slots, Remove(old(Path), items[key]))
      ensures 0 <= items[key] < |slots| && slots[TailNode].prev == items[key]
    {
      ghost var a := State();
      ghost var i := Neighbours(a, key);
      var item := items[key];
      slots := SetNext(slots, slots[item].prev, slots[item].next);
      slots := SetPrev(slots, slots[item].next, slots[item].prev);
      slots := SetPrev(slots, item, slots[TailNode].prev);
      slots := SetNext(slots, item, TailNode);
      slots := SetPrev(slots, TailNode, item);
      TouchAsWrittenStep(a, key, i, slots);
    }

    /** `createNewItem` (LRUCache.js:111-118): a new item linked in just
        before `tailNode` and registered in the table. It does not check the
        key: for a key already present, the old item stays in the chain and
        the table forgets it, so consistency is promised only for a new key
        that fits. */
    method CreateNewItem(key: string, value: V)
      requires Valid()
      modifies this
      ensures AppendWrites(old(slots), key, value, slots)
      ensures |slots| == |old(slots)| + 1
      ensures slots[|old(slots)|].key == key && slots[|old(slots)|].value == value
      ensures items == old(items)[key := |old(slots)|]
      ensures capacityValue == old(capacityValue)
      ensures Path == old(Path)[..|old(Path)| - 1] + [|old(slots)|, TailNode]
      ensures Linked(slots, Path) && SameEntries(old(slots), slots[..|old(slots)|])
      ensures key !in old(items) && |old(Order)| < capacityValue ==>
        Valid() && Abstract() == Insert(old(Abstract()), key, value)
    {
      ghost var a := State();
      var item := |slots|;
      slots := slots + [NewItem(key, value)];
      slots := SetNext(slots, item, TailNode);
      slots := SetPrev(slots, item, slots[TailNode].prev);
      slots := SetNext(slots, slots[TailNode].prev, item);
      slots := SetPrev(slots, TailNode, item);
      items := items[key := item];
      Path := Path[..|Path| - 1] + [item, TailNode];
      Order := Order + [key];
      Contents := Contents[key := value];
      AppendStep(a, State(), key, value);
    }
  }
}
