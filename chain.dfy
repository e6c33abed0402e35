/** The recency chain of LRUCache.js as an arena: every `CacheItem` is a slot
    of a sequence and its `prev`/`next` links are slot indices. Slot 0 is
    `rootNode` (least-recent end), slot 1 is `tailNode` (most-recent end).

    `Consistent` is the invariant that ties the chain to the `items` table and
    to the abstract state of module Recency. Each link surgery the cache
    performs has a lemma here saying that it takes a consistent state to the
    consistent state with the expected abstract effect. */
module Chain {
  import opened CapacityCoercion
  import opened Recency

  const RootNode: nat := 0
  const TailNode: nat := 1
  /** The `null` a fresh `CacheItem` holds in `prev` and `next`. */
  const Null: int := -1

  /** `CacheItem` (LRUCache.js:126-131). */
  datatype CacheItem<V> = CacheItem(key: string, value: V, prev: int, next: int)

  /** `new CacheItem(key, value)`: both links `null`. */
  function NewItem<V>(key: string, value: V): CacheItem<V>
  {
    CacheItem(key, value, Null, Null)
  }

  /** Both slot sequences hold the same keys and values slot by slot:
      rewriting links changes nothing else. */
  ghost predicate SameEntries<V>(s: seq<CacheItem<V>>, t: seq<CacheItem<V>>)
  {
    && |s| == |t|
    && forall x :: 0 <= x < |s| ==> t[x].key == s[x].key && t[x].value == s[x].value
  }

  /** `s[i].next = j` */
  function SetNext<V>(s: seq<CacheItem<V>>, i: int, j: int): (r: seq<CacheItem<V>>)
    requires 0 <= i < |s|
    ensures |r| == |s|
  {
    s[i := s[i].(next := j)]
  }

  /** `s[i].prev = j` */
  function SetPrev<V>(s: seq<CacheItem<V>>, i: int, j: int): (r: seq<CacheItem<V>>)
    requires 0 <= i < |s|
    ensures |r| == |s|
  {
    s[i := s[i].(prev := j)]
  }

  /** `s[i].value = v` */
  function SetValue<V>(s: seq<CacheItem<V>>, i: int, v: V): (r: seq<CacheItem<V>>)
    requires 0 <= i < |s|
    ensures |r| == |s| && r[i].value == v
    ensures r[i].key == s[i].key && r[i].prev == s[i].prev && r[i].next == s[i].next
    ensures forall x :: 0 <= x < |s| && x != i ==> r[x] == s[x]
  {
    s[i := s[i].(value := v)]
  }

  /** The concrete state of a cache together with its ghost view: `chain` is
      the slots met walking from `rootNode` to `tailNode`, `order` their keys
      and `contents` the abstract table. */
  datatype Arena<V> = Arena(
    slots: seq<CacheItem<V>>,
    items: map<string, int>,
    chain: seq<int>,
    order: seq<string>,
    contents: map<string, V>,
    capacity: nat)

  ghost function AbstractOf<V>(a: Arena<V>): Cache<string, V>
  {
    Cache(a.order, a.contents, a.capacity)
  }

  /** The doubly linked chain: it starts at `rootNode`, ends at `tailNode`,
      visits each slot once, and every `next` link is matched by the `prev`
      link of the slot it points to. */
  ghost predicate Linked<V>(slots: seq<CacheItem<V>>, chain: seq<int>)
  {
    && |chain| >= 2
    && chain[0] == RootNode && chain[|chain| - 1] == TailNode
    && (forall i :: 0 <= i < |chain| ==> 0 <= chain[i] < |slots|)
    && Distinct(chain)
    && (forall i {:trigger slots[chain[i]].next} :: 0 <= i < |chain| - 1 ==> slots[chain[i]].next == chain[i + 1])
    && (forall i {:trigger slots[chain[i]].prev} :: 0 < i < |chain| ==> slots[chain[i]].prev == chain[i - 1])
  }

  /** Position `i` of `order` is the key of the chain's `i + 1`-th slot,
      which the table maps the key to and which holds the key's value. */
  ghost predicate StoredAt<V>(a: Arena<V>, i: int)
  {
    && 0 <= i < |a.order| && i + 1 < |a.chain|
    && 0 <= a.chain[i + 1] < |a.slots|
    && a.order[i] in a.items && a.items[a.order[i]] == a.chain[i + 1]
    && a.order[i] in a.contents
    && a.slots[a.chain[i + 1]].key == a.order[i]
    && a.slots[a.chain[i + 1]].value == a.contents[a.order[i]]
  }

  /** The table and the contents hold exactly the keys on the chain. */
  ghost predicate Indexed<V>(a: Arena<V>)
  {
    && |a.chain| == |a.order| + 2
    && (forall i :: 0 <= i < |a.order| ==> StoredAt(a, i))
    && (forall k :: k in a.items ==> k in a.order)
    && (forall k :: k in a.contents ==> k in a.order)
  }

  ghost predicate Consistent<V>(a: Arena<V>)
  {
    && Linked(a.slots, a.chain)
    && Indexed(a)
    && 1 <= a.capacity <= MaxCapacity
    && |a.order| <= a.capacity
  }

  /** Distinct slots on the chain carry distinct keys. */
  lemma OrderDistinct<V>(a: Arena<V>)
    requires Consistent(a)
    ensures Distinct(a.order)
  {
    forall i, j | 0 <= i < j < |a.order| ensures a.order[i] != a.order[j] {
      assert StoredAt(a, i) && StoredAt(a, j);
      assert a.chain[i + 1] != a.chain[j + 1];
    }
  }

  /** A consistent arena's view is a well-formed abstract cache, and the
      table holds one entry per item on the chain. */
  lemma ConsistentWf<V>(a: Arena<V>)
    requires Consistent(a)
    ensures Wf(AbstractOf(a))
    ensures a.items.Keys == a.contents.Keys
    ensures |a.items| == |a.order|
  {
    OrderDistinct(a);
    forall k | k in a.order ensures k in a.contents && k in a.items {
      var i :| 0 <= i < |a.order| && a.order[i] == k;
      assert StoredAt(a, i);
    }
    assert a.items.Keys == set k | k in a.order;
    DistinctCardinality(a.order);
  }

  /** The slot of a stored key sits at position `i + 1` of the chain when
      the key is `order[i]`. */
  lemma SlotOfKey<V>(a: Arena<V>, key: string) returns (i: nat)
    requires Consistent(a) && key in a.items
    ensures i < |a.order| && a.order[i] == key && a.items[key] == a.chain[i + 1]
    ensures key in a.contents && 0 <= a.items[key] < |a.slots|
    ensures a.slots[a.items[key]].value == a.contents[key]
  {
    i :| 0 <= i < |a.order| && a.order[i] == key;
    assert StoredAt(a, i);
  }

  /** The neighbours of a stored key's slot: the slots before and after it
      on the chain, and the last item before `tailNode`. */
  lemma Neighbours<V>(a: Arena<V>, key: string) returns (i: nat)
    requires Consistent(a) && key in a.items
    ensures i < |a.order| && a.order[i] == key && a.items[key] == a.chain[i + 1]
    ensures var s, c, item := a.slots, a.chain, a.items[key];
      && 0 <= item < |s| && 0 <= c[i] < |s| && 0 <= c[i + 2] < |s| && TailNode < |s|
      && s[item].prev == c[i] && s[item].next == c[i + 2]
      && 0 <= c[|c| - 2] < |s| && s[TailNode].prev == c[|c| - 2]
      && item != c[i] && item != c[i + 2] && item != TailNode && c[i] != c[i + 2]
      && (c[i + 2] == TailNode <==> i == |a.order| - 1)
  {
    i := SlotOfKey(a, key);
    var c := a.chain;
    assert c[|c| - 1] == TailNode;
  }

  // -----------------------------------------------------------------------
  // removeLeastRecent (LRUCache.js:84-89)

  /** Relinking `rootNode` to the second item of the chain drops the first
      item from the chain. */
  lemma UnlinkFirstLinked<V>(s: seq<CacheItem<V>>, chain: seq<int>, t: seq<CacheItem<V>>)
    requires Linked(s, chain) && |chain| >= 3
    requires t == SetPrev(SetNext(s, RootNode, chain[2]), chain[2], RootNode)
    ensures Linked(t, [RootNode] + chain[2..])
  {
    var c' := [RootNode] + chain[2..];
    var n := chain[2];
    assert n != RootNode;
    forall j | 0 <= j < |c'| - 1
      ensures t[c'[j]].next == c'[j + 1]
    {
      if j > 0 {
        assert c'[j] == chain[j + 1] && c'[j + 1] == chain[j + 2];
        assert chain[j + 1] != RootNode;
      }
    }
    forall j | 0 < j < |c'|
      ensures t[c'[j]].prev == c'[j - 1]
    {
      if j > 1 {
        assert c'[j] == chain[j + 1] && c'[j - 1] == chain[j];
        assert chain[j + 1] != n && chain[j + 1] != RootNode;
      }
    }
    assert Distinct(c');
  }

  /** Dropping the first key from order, table and contents keeps them in
      step with the shortened chain. */
  lemma DropFirstIndexed<V>(a: Arena<V>, b: Arena<V>)
    requires Indexed(a) && Distinct(a.chain) && |a.order| > 0
    requires SameEntries(a.slots, b.slots)
    requires b.chain == [RootNode] + a.chain[2..]
    requires b.order == a.order[1..] && b.contents == a.contents - {a.order[0]}
    requires b.items == a.items - {a.order[0]}
    ensures Indexed(b)
  {
    assert StoredAt(a, 0);
    forall i | 0 <= i < |b.order| ensures StoredAt(b, i) {
      assert StoredAt(a, i + 1);
      assert b.order[i] == a.order[i + 1] && b.chain[i + 1] == a.chain[i + 2];
      assert a.chain[i + 2] != a.chain[1];
    }
    forall k | k in b.items || k in b.contents ensures k in b.order {
      var i :| 0 <= i < |a.order| && a.order[i] == k;
      assert b.order[i - 1] == k;
    }
  }

  /** Unlinking the item after `rootNode` and deleting its key evicts the
      least recent key. */
  lemma EvictStep<V>(a: Arena<V>, b: Arena<V>)
    requires Consistent(a) && |a.order| > 0
    requires var item := a.slots[RootNode].next;
      && 0 <= item < |a.slots| && 0 <= a.slots[item].next < |a.slots|
      && b.slots == SetPrev(SetNext(a.slots, RootNode, a.slots[item].next), a.slots[item].next, RootNode)
      && b.items == a.items - {a.slots[item].key}
      && b.chain == [RootNode] + a.chain[2..]
      && b.order == a.order[1..] && b.contents == a.contents - {a.order[0]}
      && b.capacity == a.capacity
    ensures Consistent(b) && b.items == a.items - {a.order[0]}
    ensures AbstractOf(b) == Evict(AbstractOf(a))
  {
    var item := a.chain[1];
    assert a.slots[RootNode].next == item && a.slots[item].next == a.chain[2];
    assert StoredAt(a, 0);
    UnlinkFirstLinked(a.slots, a.chain, b.slots);
    DropFirstIndexed(a, b);
  }

  // -----------------------------------------------------------------------
  // setMostRecent (LRUCache.js:95-104), with the missing write restored

  /** The position in a chain of `n` slots that the slot at position `j`
      comes from when the slot at position `p` is moved to just before the
      last one. */
  function Origin(n: int, p: int, j: int): int
  {
    if j < p then j else if j < n - 2 then j + 1 else if j == n - 2 then p else n - 1
  }

  /** The chain with the item at position `p` moved to just before
      `tailNode`. */
  function MovedToEnd(c: seq<int>, p: int): (r: seq<int>)
    requires 0 <= p < |c| - 1
    ensures |r| == |c|
    ensures forall j :: 0 <= j < |c| ==> 0 <= Origin(|c|, p, j) < |c| && r[j] == c[Origin(|c|, p, j)]
  {
    c[..p] + c[p + 1..|c| - 1] + [c[p], c[|c| - 1]]
  }

  /** Moving an item keeps the chain free of repetitions. */
  lemma MovedToEndDistinct(c: seq<int>, p: int)
    requires Distinct(c) && 0 <= p < |c| - 1
    ensures Distinct(MovedToEnd(c, p))
  {
    var r := MovedToEnd(c, p);
    forall i, j | 0 <= i < j < |c| ensures r[i] != r[j] {
      assert r[i] == c[Origin(|c|, p, i)] && r[j] == c[Origin(|c|, p, j)];
    }
  }

  /** The slot links after the six writes of `setMostRecent` on the item at
      chain position `p`: its neighbours are joined, it is placed after the
      last item, and `tailNode` after it. `t` is the slot sequence after the
      writes, in the order the source performs them. */
  ghost predicate TouchWrites<V>(s: seq<CacheItem<V>>, c: seq<int>, p: int, t: seq<CacheItem<V>>)
    requires Linked(s, c) && 1 <= p < |c| - 1
  {
    var item := c[p];
    assert s[item].prev == c[p - 1] && s[item].next == c[p + 1];
    var s1 := SetNext(s, s[item].prev, s[item].next);
    var s2 := SetPrev(s1, s1[item].next, s1[item].prev);
    var s3 := SetPrev(s2, item, s2[TailNode].prev);
    var s4 := SetNext(s3, item, TailNode);
    var s5 := SetNext(s4, s4[TailNode].prev, item);
    t == SetPrev(s5, TailNode, item)
  }

  /** The links each slot ends up with after `TouchWrites`. */
  lemma TouchFields<V>(s: seq<CacheItem<V>>, c: seq<int>, p: int, t: seq<CacheItem<V>>)
    requires Linked(s, c) && 1 <= p < |c| - 1
    requires TouchWrites(s, c, p, t)
    ensures SameEntries(s, t)
    ensures var item, pred, succ := c[p], c[p - 1], c[p + 1];
      var last := if succ == TailNode then pred else c[|c| - 2];
      forall x :: 0 <= x < |s| ==>
        && t[x].next == (if x == item then TailNode else if x == last then item else if x == pred then succ else s[x].next)
        && t[x].prev == (if x == TailNode then item else if x == item then last else if x == succ then pred else s[x].prev)
  {
    var item, pred, succ := c[p], c[p - 1], c[p + 1];
    assert s[item].prev == pred && s[item].next == succ;
    assert item != pred && item != succ && item != TailNode;
    var s1 := SetNext(s, pred, succ);
    var s2 := SetPrev(s1, succ, pred);
    var last := s2[TailNode].prev;
    assert last == if succ == TailNode then pred else c[|c| - 2];
    var s3 := SetPrev(s2, item, last);
    var s4 := SetNext(s3, item, TailNode);
    var s5 := SetNext(s4, last, item);
    assert t == SetPrev(s5, TailNode, item);
  }

  /** After `setMostRecent`, every `next` link follows the new chain. */
  lemma TouchNextLinks<V>(s: seq<CacheItem<V>>, c: seq<int>, p: int, t: seq<CacheItem<V>>)
    requires Linked(s, c) && 1 <= p < |c| - 1
    requires TouchWrites(s, c, p, t)
    ensures var c' := MovedToEnd(c, p);
      forall j {:trigger t[c'[j]].next} :: 0 <= j < |c'| - 1 ==> 0 <= c'[j] < |t| && t[c'[j]].next == c'[j + 1]
  {
    TouchFields(s, c, p, t);
    var c' := MovedToEnd(c, p);
    var n := |c|;
    forall j | 0 <= j < n - 1 ensures 0 <= c'[j] < |t| && t[c'[j]].next == c'[j + 1] {
      assert c'[j] == c[Origin(n, p, j)] && c'[j + 1] == c[Origin(n, p, j + 1)];
    }
  }

  /** After `setMostRecent`, every `prev` link follows the new chain. */
  lemma TouchPrevLinks<V>(s: seq<CacheItem<V>>, c: seq<int>, p: int, t: seq<CacheItem<V>>)
    requires Linked(s, c) && 1 <= p < |c| - 1
    requires TouchWrites(s, c, p, t)
    ensures var c' := MovedToEnd(c, p);
      forall j {:trigger t[c'[j]].prev} :: 0 < j < |c'| ==> 0 <= c'[j] < |t| && t[c'[j]].prev == c'[j - 1]
  {
    TouchFields(s, c, p, t);
    var c' := MovedToEnd(c, p);
    var n := |c|;
    forall j | 0 < j < n ensures 0 <= c'[j] < |t| && t[c'[j]].prev == c'[j - 1] {
      assert c'[j] == c[Origin(n, p, j)] && c'[j - 1] == c[Origin(n, p, j - 1)];
    }
  }

  /** `setMostRecent` keeps the chain doubly linked, with the touched item
      moved to the most-recent end. */
  lemma TouchLinked<V>(s: seq<CacheItem<V>>, c: seq<int>, p: int, t: seq<CacheItem<V>>)
    requires Linked(s, c) && 1 <= p < |c| - 1
    requires TouchWrites(s, c, p, t)
    ensures Linked(t, MovedToEnd(c, p))
  {
    TouchNextLinks(s, c, p, t);
    TouchPrevLinks(s, c, p, t);
    MovedToEndDistinct(c, p);
  }

  /** Moving a key to the end of `order` together with its slot keeps the
      table in step with the chain. */
  lemma TouchIndexed<V>(a: Arena<V>, b: Arena<V>, i: int)
    requires Indexed(a) && 0 <= i < |a.order|
    requires SameEntries(a.slots, b.slots)
    requires b.chain == MovedToEnd(a.chain, i + 1)
    requires b.order == a.order[..i] + a.order[i + 1..] + [a.order[i]]
    requires b.items == a.items && b.contents == a.contents
    ensures Indexed(b)
  {
    var m := |a.order|;
    forall j | 0 <= j < m ensures StoredAt(b, j) {
      var j' := Origin(m + 2, i + 1, j + 1) - 1;
      assert StoredAt(a, j');
      assert b.order[j] == a.order[j'] && b.chain[j + 1] == a.chain[j' + 1];
    }
    forall k | k in b.items || k in b.contents ensures k in b.order {
      var j :| 0 <= j < m && a.order[j] == k;
      var j' := if j < i then j else if j == i then m - 1 else j - 1;
      assert b.order[j'] == k;
    }
  }

  /** `setMostRecent` on a stored key moves it to the most-recent end. */
  lemma TouchStep<V>(a: Arena<V>, b: Arena<V>, i: int)
    requires Consistent(a) && 0 <= i < |a.order|
    requires TouchWrites(a.slots, a.chain, i + 1, b.slots)
    requires b.chain == MovedToEnd(a.chain, i + 1)
    requires b.order == a.order[..i] + a.order[i + 1..] + [a.order[i]]
    requires b.items == a.items && b.contents == a.contents && b.capacity == a.capacity
    ensures Consistent(b)
  {
    TouchLinked(a.slots, a.chain, i + 1, b.slots);
    TouchFields(a.slots, a.chain, i + 1, b.slots);
    TouchIndexed(a, b, i);
  }

  /** The five writes `setMostRecent` performs as the source writes it:
      `TouchWrites` without `tailNode.prev.next = item`. */
  ghost predicate TouchWritesAsWritten<V>(s: seq<CacheItem<V>>, c: seq<int>, p: int, t: seq<CacheItem<V>>)
    requires Linked(s, c) && 1 <= p < |c| - 1
  {
    var item := c[p];
    assert s[item].prev == c[p - 1] && s[item].next == c[p + 1];
    var s1 := SetNext(s, s[item].prev, s[item].next);
    var s2 := SetPrev(s1, s1[item].next, s1[item].prev);
    var s3 := SetPrev(s2, item, s2[TailNode].prev);
    var s4 := SetNext(s3, item, TailNode);
    t == SetPrev(s4, TailNode, item)
  }

  /** Following `next` links from `rootNode` meets exactly the slots of `w`,
      in order, and ends at `tailNode`. */
  ghost predicate ForwardWalk<V>(t: seq<CacheItem<V>>, w: seq<int>)
  {
    && |w| >= 2 && w[0] == RootNode && w[|w| - 1] == TailNode
    && (forall j :: 0 <= j < |w| ==> 0 <= w[j] < |t|)
    && (forall j {:trigger t[w[j]].next} :: 0 <= j < |w| - 1 ==> t[w[j]].next == w[j + 1])
  }

  /** As written, touching any item drops it from the forward chain. Its
      predecessor is linked to its successor and nothing links anything back
      to it, so walking `next` links from `rootNode` passes every other item
      and reaches `tailNode` without meeting it, while `tailNode.prev` names
      it. When it was already the most recent item, its predecessor now
      points at `tailNode`; otherwise the old last item still does. */
  lemma TouchAsWrittenDropsItem<V>(s: seq<CacheItem<V>>, c: seq<int>, p: int, t: seq<CacheItem<V>>)
    requires Linked(s, c) && 1 <= p < |c| - 1
    requires TouchWritesAsWritten(s, c, p, t)
    ensures var w := c[..p] + c[p + 1..];
      && ForwardWalk(t, w) && c[p] !in w
      && t[TailNode].prev == c[p]
      && t[c[p]].prev == (if p == |c| - 2 then c[p - 1] else c[|c| - 2])
      && t[c[|c| - 2]].next == TailNode
  {
    var n := |c|;
    var item, pred, succ := c[p], c[p - 1], c[p + 1];
    var last := if p == n - 2 then pred else c[n - 2];
    assert s[item].prev == pred && s[item].next == succ;
    assert item != pred && item != succ && item != TailNode;
    var s1 := SetNext(s, pred, succ);
    var s2 := SetPrev(s1, succ, pred);
    assert s2[TailNode].prev == last;
    var s3 := SetPrev(s2, item, last);
    var s4 := SetNext(s3, item, TailNode);
    assert t == SetPrev(s4, TailNode, item);
    assert forall x :: 0 <= x < |s| ==> t[x].next == (if x == item then TailNode else if x == pred then succ else s[x].next);
    var w := c[..p] + c[p + 1..];
    forall j | 0 <= j < |w| ensures 0 <= w[j] < |t| {
      assert w[j] in c;
    }
    forall j | 0 <= j < |w| - 1 ensures t[w[j]].next == w[j + 1] {
      if j < p - 1 {
        assert w[j] == c[j] && w[j + 1] == c[j + 1];
      } else if j == p - 1 {
        assert w[j] == pred && w[j + 1] == succ;
      } else {
        assert w[j] == c[j + 1] && w[j + 1] == c[j + 2];
      }
    }
    forall j | 0 <= j < |w| ensures w[j] != item {
      if j < p {
        assert w[j] == c[j];
      } else {
        assert w[j] == c[j + 1];
      }
    }
  }

  /** `TouchAsWrittenDropsItem` for a stored key: the forward walk is the old
      chain without the key's slot. */
  lemma TouchAsWrittenStep<V>(a: Arena<V>, key: string, i: int, t: seq<CacheItem<V>>)
    requires Consistent(a) && 0 <= i < |a.order| && a.order[i] == key
    requires TouchWritesAsWritten(a.slots, a.chain, i + 1, t)
    ensures key in a.items
    ensures ForwardWalk(t, Remove(a.chain, a.items[key]))
    ensures 0 <= a.items[key] < |t| && t[TailNode].prev == a.items[key]
  {
    assert StoredAt(a, i);
    TouchAsWrittenDropsItem(a.slots, a.chain, i + 1, t);
    RemoveAt(a.chain, i + 1);
  }

  /** In a cache holding one item, touching it as written leaves `rootNode`
      pointing straight at `tailNode`: the next eviction finds no item and
      takes `tailNode` itself, while `tailNode.prev` still names the item. */
  lemma TouchAsWrittenOnlyItem<V>(s: seq<CacheItem<V>>, c: seq<int>, t: seq<CacheItem<V>>)
    requires Linked(s, c) && |c| == 3
    requires TouchWritesAsWritten(s, c, 1, t)
    ensures t[RootNode].next == TailNode
    ensures t[TailNode].prev == c[1] && c[1] != TailNode
  {
    TouchAsWrittenDropsItem(s, c, 1, t);
    assert c[..1] + c[2..] == [RootNode, TailNode];
  }

  // -----------------------------------------------------------------------
  // createNewItem (LRUCache.js:111-118)

  /** The slot links after the four writes of `createNewItem`: a new slot
      for the key is appended to the arena and linked in between the last
      item and `tailNode`. */
  ghost predicate AppendWrites<V>(s: seq<CacheItem<V>>, key: string, value: V, t: seq<CacheItem<V>>)
    requires TailNode < |s|
  {
    var item := |s|;
    var s0 := s + [NewItem(key, value)];
    var s1 := SetNext(s0, item, TailNode);
    var s2 := SetPrev(s1, item, s1[TailNode].prev);
    && 0 <= s2[TailNode].prev < |s2|
    && var s3 := SetNext(s2, s2[TailNode].prev, item);
       t == SetPrev(s3, TailNode, item)
  }

  /** The links each slot ends up with after `AppendWrites`. */
  lemma AppendFields<V>(s: seq<CacheItem<V>>, c: seq<int>, key: string, value: V, t: seq<CacheItem<V>>)
    requires Linked(s, c)
    requires AppendWrites(s, key, value, t)
    ensures |t| == |s| + 1 && t[|s|].key == key && t[|s|].value == value
    ensures SameEntries(s, t[..|s|])
    ensures var item, last := |s|, c[|c| - 2];
      forall x :: 0 <= x <= |s| ==>
        && t[x].next == (if x == item then TailNode else if x == last then item else s[x].next)
        && t[x].prev == (if x == TailNode then item else if x == item then last else s[x].prev)
  {
    var item, last := |s|, c[|c| - 2];
    assert s[TailNode].prev == last;
    var s0 := s + [NewItem(key, value)];
    var s1 := SetNext(s0, item, TailNode);
    var s2 := SetPrev(s1, item, last);
    var s3 := SetNext(s2, last, item);
    assert t == SetPrev(s3, TailNode, item);
  }

  /** `createNewItem` keeps the chain doubly linked, with the new slot at the
      most-recent end. */
  lemma AppendLinked<V>(s: seq<CacheItem<V>>, c: seq<int>, key: string, value: V, t: seq<CacheItem<V>>)
    requires Linked(s, c)
    requires AppendWrites(s, key, value, t)
    ensures Linked(t, c[..|c| - 1] + [|s|, TailNode])
  {
    AppendFields(s, c, key, value, t);
    var c' := c[..|c| - 1] + [|s|, TailNode];
    var n := |c|;
    forall j | 0 <= j < n ensures t[c'[j]].next == c'[j + 1] {
      if j < n - 1 {
        assert c'[j] == c[j];
      }
    }
    forall j | 0 < j <= n ensures t[c'[j]].prev == c'[j - 1] {
      if j < n - 1 {
        assert c'[j] == c[j] && c'[j - 1] == c[j - 1];
      } else if j == n {
        assert c'[j - 1] == |s|;
      }
    }
    forall i, j | 0 <= i < j <= n ensures c'[i] != c'[j] {
      if j < n - 1 {
        assert c'[i] == c[i] && c'[j] == c[j];
      } else if j == n && i < n - 1 {
        assert c'[i] == c[i];
      }
    }
  }

  /** Adding a new key with its slot at the end of the chain keeps the table
      in step with the chain. */
  lemma AppendIndexed<V>(a: Arena<V>, b: Arena<V>, key: string, value: V)
    requires Indexed(a) && key !in a.items
    requires |b.slots| == |a.slots| + 1 && SameEntries(a.slots, b.slots[..|a.slots|])
    requires b.slots[|a.slots|].key == key && b.slots[|a.slots|].value == value
    requires b.chain == a.chain[..|a.chain| - 1] + [|a.slots|, TailNode]
    requires b.order == a.order + [key]
    requires b.items == a.items[key := |a.slots|] && b.contents == a.contents[key := value]
    ensures Indexed(b)
  {
    var m := |a.order|;
    forall j | 0 <= j <= m ensures StoredAt(b, j) {
      if j < m {
        assert StoredAt(a, j);
        assert b.order[j] == a.order[j] && b.chain[j + 1] == a.chain[j + 1];
        assert a.order[j] != key;
      }
    }
    forall k | k in b.items || k in b.contents ensures k in b.order {
      if k != key {
        var j :| 0 <= j < m && a.order[j] == k;
        assert b.order[j] == k;
      }
    }
  }

  /** `createNewItem` always leaves a doubly linked chain with the new slot
      at the most-recent end and every old slot's key and value in place;
      for a key that is not stored, with room left, it inserts the key at
      the most-recent end. */
  lemma AppendStep<V>(a: Arena<V>, b: Arena<V>, key: string, value: V)
    requires Consistent(a)
    requires AppendWrites(a.slots, key, value, b.slots)
    requires b.chain == a.chain[..|a.chain| - 1] + [|a.slots|, TailNode]
    requires b.order == a.order + [key]
    requires b.items == a.items[key := |a.slots|] && b.contents == a.contents[key := value]
    requires b.capacity == a.capacity
    ensures Linked(b.slots, b.chain) && SameEntries(a.slots, b.slots[..|a.slots|])
    ensures |b.slots| == |a.slots| + 1 && b.slots[|a.slots|].key == key && b.slots[|a.slots|].value == value
    ensures key !in a.items && |a.order| < a.capacity ==>
      Consistent(b) && AbstractOf(b) == Insert(AbstractOf(a), key, value)
  {
    AppendLinked(a.slots, a.chain, key, value, b.slots);
    AppendFields(a.slots, a.chain, key, value, b.slots);
    if key !in a.items && |a.order| < a.capacity {
      AppendIndexed(a, b, key, value);
    }
  }

  /** A stored key's slot stays on the chain, and keeps its key, when
      `createNewItem` appends another slot; the table then names the new
      one. This is how `put` as written links a stored key twice. */
  lemma AppendKeepsStored<V>(a: Arena<V>, key: string, j: nat, t: seq<CacheItem<V>>)
    requires |a.chain| == |a.order| + 2 && StoredAt(a, j) && a.order[j] == key
    requires |t| == |a.slots| + 1 && SameEntries(a.slots, t[..|a.slots|])
    ensures var c' := a.chain[..|a.chain| - 1] + [|a.slots|, TailNode];
      && key in a.items && a.items[key] in c' && |a.slots| in c'
      && a.items[key] != |a.slots|
      && 0 <= a.items[key] < |t| && t[a.items[key]].key == key
  {
    var c' := a.chain[..|a.chain| - 1] + [|a.slots|, TailNode];
    assert c'[j + 1] == a.chain[j + 1];
    assert c'[|c'| - 2] == |a.slots|;
    assert t[..|a.slots|][a.chain[j + 1]] == t[a.chain[j + 1]];
  }

  // -----------------------------------------------------------------------
  // the value write of `put` (LRUCache.js:75)

  /** Overwriting the value in a stored key's slot updates its contents and
      nothing else. */
  lemma ValueStep<V>(a: Arena<V>, b: Arena<V>, key: string, value: V)
    requires Consistent(a) && key in a.items
    requires 0 <= a.items[key] < |a.slots|
    requires b.slots == SetValue(a.slots, a.items[key], value)
    requires b.contents == a.contents[key := value]
    requires b.items == a.items && b.chain == a.chain && b.order == a.order && b.capacity == a.capacity
    ensures Consistent(b)
  {
    var x := a.items[key];
    var i := SlotOfKey(a, key);
    forall j | 0 <= j < |b.chain| - 1 ensures b.slots[b.chain[j]].next == b.chain[j + 1] {
    }
    forall j | 0 < j < |b.chain| ensures b.slots[b.chain[j]].prev == b.chain[j - 1] {
    }
    forall j | 0 <= j < |b.order| ensures StoredAt(b, j) {
      assert StoredAt(a, j);
      assert a.order[j] == key <==> j == i;
    }
  }

  // -----------------------------------------------------------------------
  // the last write of the capacity setter (LRUCache.js:50)

  /** Storing a capacity that the chain fits in keeps the arena consistent. */
  lemma CapacityStep<V>(a: Arena<V>, n: nat)
    requires Consistent(a) && 1 <= n <= MaxCapacity && |a.order| <= n
    ensures Consistent(a.(capacity := n))
  {
    var b := a.(capacity := n);
    forall j | 0 <= j < |b.order| ensures StoredAt(b, j) {
      assert StoredAt(a, j);
    }
  }

  // -----------------------------------------------------------------------
  // the constructor (LRUCache.js:11-16)

  /** Two sentinels linked to each other and an empty table. */
  lemma EmptyStep<V>(a: Arena<V>)
    requires |a.slots| == 2
    requires a.slots[RootNode].next == TailNode && a.slots[TailNode].prev == RootNode
    requires a.chain == [RootNode, TailNode] && a.order == []
    requires a.items == map[] && a.contents == map[]
    requires 1 <= a.capacity <= MaxCapacity
    ensures Consistent(a)
  {
  }
}
