/** The abstract meaning of the cache in LRUCache.js: the keys in recency
    order (least recent first, as the chain runs from `rootNode` to
    `tailNode`), the stored value of each key, and the capacity. Every
    operation of the cache is specified here as a function on that value;
    the implementation in module LRU is proved to follow them. */
module Recency {
  import opened CapacityCoercion

  datatype Option<T> = None | Some(value: T)

  datatype Cache<K(==,!new), V> = Cache(order: seq<K>, contents: map<K, V>, capacity: nat)

  ghost predicate Distinct<K>(s: seq<K>)
  {
    forall i, j :: 0 <= i < j < |s| ==> s[i] != s[j]
  }

  /** The invariant every reachable cache satisfies: each stored key appears
      exactly once in the recency order, and size never exceeds a capacity
      in [1, 2^32). */
  ghost predicate Wf<K(!new), V>(c: Cache<K, V>)
  {
    && Distinct(c.order)
    && (forall k :: k in c.contents <==> k in c.order)
    && 1 <= c.capacity <= MaxCapacity
    && |c.order| <= c.capacity
  }

  // ---------------------------------------------------------------------
  // Sequence helpers

  /** `s` without any occurrence of `k`, the other elements in their order. */
  function Remove<K(==,!new)>(s: seq<K>, k: K): (r: seq<K>)
    ensures forall x :: x in r <==> x in s && x != k
    ensures |r| <= |s|
  {
    if s == [] then []
    else if s[0] == k then Remove(s[1..], k)
    else [s[0]] + Remove(s[1..], k)
  }

  lemma {:induction false} RemoveAbsent<K(!new)>(s: seq<K>, k: K)
    requires k !in s
    ensures Remove(s, k) == s
  {
    if s != [] {
      RemoveAbsent(s[1..], k);
      assert s == [s[0]] + s[1..];
    }
  }

  /** In a sequence without repetitions, removing the element at `i` cuts
      out exactly that position. */
  lemma {:induction false} RemoveAt<K(!new)>(s: seq<K>, i: nat)
    requires Distinct(s) && i < |s|
    ensures Remove(s, s[i]) == s[..i] + s[i + 1..]
  {
    if i == 0 {
      assert s[i] !in s[1..];
      RemoveAbsent(s[1..], s[i]);
    } else {
      RemoveAt(s[1..], i - 1);
      assert s[1..][i - 1] == s[i];
      assert s[1..][..i - 1] + s[1..][i..] == s[1..i] + s[i + 1..];
      assert s[..i] == [s[0]] + s[1..i];
    }
  }

  lemma DistinctWithout<K>(s: seq<K>, i: nat)
    requires Distinct(s) && i < |s|
    ensures Distinct(s[..i] + s[i + 1..])
  {
    var r := s[..i] + s[i + 1..];
    forall a, b | 0 <= a < b < |r| ensures r[a] != r[b] {
      var a' := if a < i then a else a + 1;
      var b' := if b < i then b else b + 1;
      assert r[a] == s[a'] && r[b] == s[b'];
    }
  }

  /** A sequence without repetitions has as many distinct elements as it
      has positions. */
  lemma {:induction false} DistinctCardinality<K(!new)>(s: seq<K>)
    requires Distinct(s)
    ensures |set x | x in s| == |s|
  {
    if s != [] {
      var t := s[1..];
      assert Distinct(t);
      DistinctCardinality(t);
      assert s[0] !in t;
      assert (set x | x in s) == (set x | x in t) + {s[0]};
    }
  }

  // ---------------------------------------------------------------------
  // The operations

  /** `setMostRecent`: move `k` to the most-recent end (LRUCache.js:95-104). */
  function Touch<K(==,!new)>(order: seq<K>, k: K): seq<K>
  {
    Remove(order, k) + [k]
  }

  /** `removeLeastRecent`: drop the key next to `rootNode` from both the
      chain and the table (LRUCache.js:84-89). */
  function Evict<K(==,!new), V>(c: Cache<K, V>): Cache<K, V>
    requires |c.order| > 0
  {
    c.(order := c.order[1..], contents := c.contents - {c.order[0]})
  }

  /** `createNewItem`: append a new key at the most-recent end and register
      it in the table (LRUCache.js:111-118). */
  function Insert<K(==,!new), V>(c: Cache<K, V>, k: K, v: V): Cache<K, V>
  {
    c.(order := c.order + [k], contents := c.contents[k := v])
  }

  /** `get` (LRUCache.js:59-66): the stored value and the touched cache, or
      nothing and the cache as it was (the source returns `null`). */
  function Get<K(==,!new), V>(c: Cache<K, V>, k: K): (Option<V>, Cache<K, V>)
  {
    if k in c.contents then (Some(c.contents[k]), c.(order := Touch(c.order, k)))
    else (None, c)
  }

  /** `put` (LRUCache.js:73-82), with the existing-key test read as key
      membership, as in `get` and as the doc comment promises. */
  function Put<K(==,!new), V>(c: Cache<K, V>, k: K, v: V): Cache<K, V>
    requires 1 <= c.capacity
  {
    if k in c.contents then
      c.(contents := c.contents[k := v], order := Touch(c.order, k))
    else
      Insert(if |c.order| == c.capacity then Evict(c) else c, k, v)
  }

  /** The eviction loop of the capacity setter (LRUCache.js:46-48). */
  function ShrinkTo<K(==,!new), V>(c: Cache<K, V>, n: nat): Cache<K, V>
    decreases |c.order|
  {
    if |c.order| > n then ShrinkTo(Evict(c), n) else c
  }

  /** The capacity setter (LRUCache.js:38-51). */
  function SetCapacity<K(==,!new), V>(c: Cache<K, V>, x: CapacityInput): Cache<K, V>
  {
    var n := NormalizeCapacity(x);
    (if n < c.capacity then ShrinkTo(c, n) else c).(capacity := n)
  }

  /** The cache the constructor builds (LRUCache.js:9-20): empty chain,
      empty table; the setter runs on an empty cache, so nothing is evicted. */
  function Empty<K(==,!new), V>(x: CapacityInput): Cache<K, V>
  {
    Cache([], map[], InitialCapacity(x))
  }

  /** Several `put`s in a row. */
  function PutAll<K(==,!new), V>(c: Cache<K, V>, kvs: seq<(K, V)>): Cache<K, V>
    requires 1 <= c.capacity
    decreases |kvs|
  {
    if kvs == [] then c else PutAll(Put(c, kvs[0].0, kvs[0].1), kvs[1..])
  }

  // ---------------------------------------------------------------------
  // Properties

  /** The table and the recency order always have the same size. */
  lemma SizeIsOrderLength<K(!new), V>(c: Cache<K, V>)
    requires Wf(c)
    ensures |c.contents| == |c.order|
  {
    DistinctCardinality(c.order);
    assert c.contents.Keys == set x | x in c.order;
  }

  lemma EmptyWf<K(!new), V>(x: CapacityInput)
    ensures Wf(Empty<K, V>(x))
    ensures Empty<K, V>(x).order == [] && Empty<K, V>(x).contents == map[]
    ensures !Truthy(x) ==> Empty<K, V>(x).capacity == DefaultCapacity
  {
  }

  /** Touching a present key moves it to the most-recent end and leaves the
      relative order of every other key as it was. */
  lemma TouchMovesToEnd<K(!new)>(order: seq<K>, k: K)
    requires Distinct(order) && k in order
    ensures var t := Touch(order, k);
      && |t| == |order|
      && Distinct(t)
      && t[|t| - 1] == k
      && (forall x :: x in t <==> x in order)
      && Remove(t, k) == Remove(order, k)
  {
    var i :| 0 <= i < |order| && order[i] == k;
    RemoveAt(order, i);
    var r := order[..i] + order[i + 1..];
    DistinctWithout(order, i);
    assert forall x :: x in r <==> x in order && x != k;
    var t := r + [k];
    assert Distinct(t) by {
      forall a, b | 0 <= a < b < |t| ensures t[a] != t[b] {
        if b == |t| - 1 {
          assert t[a] in r;
        }
      }
    }
    assert k !in r;
    RemoveAbsent(r, k);
    assert Remove(t, k) == Remove(r, k) by {
      RemoveAppendOne(r, k);
    }
  }

  lemma {:induction false} RemoveAppendOne<K(!new)>(r: seq<K>, k: K)
    ensures Remove(r + [k], k) == Remove(r, k)
  {
    if r == [] {
      assert [k][1..] == [];
    } else {
      RemoveAppendOne(r[1..], k);
      assert (r + [k])[1..] == r[1..] + [k];
    }
  }

  lemma EvictWf<K(!new), V>(c: Cache<K, V>)
    requires Wf(c) && |c.order| > 0
    ensures Wf(Evict(c))
    ensures c.order[0] !in Evict(c).contents
    ensures |Evict(c).order| == |c.order| - 1
  {
    var e := Evict(c);
    assert forall k :: k in e.order ==> k in c.order && k != c.order[0] by {
      forall k | k in e.order ensures k in c.order && k != c.order[0] {
        var j :| 0 <= j < |e.order| && e.order[j] == k;
        assert c.order[j + 1] == k;
      }
    }
  }

  lemma InsertWf<K(!new), V>(c: Cache<K, V>, k: K, v: V)
    requires Wf(c) && k !in c.contents && |c.order| < c.capacity
    ensures Wf(Insert(c, k, v))
  {
  }

  /** `get` of an absent key answers nothing and changes nothing. */
  lemma GetAbsent<K(!new), V>(c: Cache<K, V>, k: K)
    requires k !in c.contents
    ensures Get(c, k) == (None, c)
  {
  }

  /** `get` of a present key returns its value, stores nothing new, makes
      the key most recent and keeps every other key in its relative order. */
  lemma GetPresent<K(!new), V>(c: Cache<K, V>, k: K)
    requires Wf(c) && k in c.contents
    ensures var (r, c') := Get(c, k);
      && r == Some(c.contents[k])
      && Wf(c')
      && c'.contents == c.contents && c'.capacity == c.capacity
      && |c'.order| == |c.order| && c'.order[|c'.order| - 1] == k
      && Remove(c'.order, k) == Remove(c.order, k)
  {
    TouchMovesToEnd(c.order, k);
  }

  /** `put` keeps the invariant; in particular size never exceeds capacity. */
  lemma PutWf<K(!new), V>(c: Cache<K, V>, k: K, v: V)
    requires Wf(c)
    ensures Wf(Put(c, k, v))
    ensures |Put(c, k, v).order| <= Put(c, k, v).capacity
  {
    if k in c.contents {
      TouchMovesToEnd(c.order, k);
    } else if |c.order| == c.capacity {
      EvictWf(c);
      InsertWf(Evict(c), k, v);
    } else {
      InsertWf(c, k, v);
    }
  }

  /** After `put(k, v)`, `get(k)` returns `v` and `k` is the most recent key. */
  lemma PutThenGet<K(!new), V>(c: Cache<K, V>, k: K, v: V)
    requires Wf(c)
    ensures Get(Put(c, k, v), k).0 == Some(v)
    ensures var o := Put(c, k, v).order; |o| > 0 && o[|o| - 1] == k
  {
  }

  /** `put` of an existing key replaces its value, keeps the size and the
      set of keys, and makes the key most recent. */
  lemma PutExisting<K(!new), V>(c: Cache<K, V>, k: K, v: V)
    requires Wf(c) && k in c.contents
    ensures var c' := Put(c, k, v);
      && c'.contents.Keys == c.contents.Keys
      && c'.contents[k] == v
      && (forall x :: x in c.contents && x != k ==> c'.contents[x] == c.contents[x])
      && |c'.order| == |c.order| && c'.order[|c'.order| - 1] == k
      && Remove(c'.order, k) == Remove(c.order, k)
  {
    TouchMovesToEnd(c.order, k);
  }

  /** `put` of a new key into a full cache loses exactly the least recent key
      and appends the new one; below capacity nothing is lost. */
  lemma PutNew<K(!new), V>(c: Cache<K, V>, k: K, v: V)
    requires Wf(c) && k !in c.contents
    ensures var c' := Put(c, k, v);
      && c'.order == (if |c.order| == c.capacity then c.order[1..] else c.order) + [k]
      && c'.contents.Keys == (if |c.order| == c.capacity then c.contents.Keys - {c.order[0]} else c.contents.Keys) + {k}
      && (forall x :: x in c'.contents && x != k ==> c'.contents[x] == c.contents[x])
  {
  }

  /** Recency, not insertion, decides eviction: a key read by `get` is
      skipped by the next eviction, which takes the next-least-recent key. */
  lemma GetProtectsFromEviction<K(!new), V>(c: Cache<K, V>, k: K, k': K, v: V)
    requires Wf(c) && |c.order| == c.capacity && |c.order| >= 2
    requires k == c.order[0] && k' !in c.contents
    ensures var c' := Put(Get(c, k).1, k', v);
      && k in c'.contents
      && c.order[1] !in c'.contents
  {
    TouchMovesToEnd(c.order, k);
    RemoveAt(c.order, 0);
    var t := Get(c, k).1;
    assert t.order == c.order[1..] + [k];
  }

  /** The eviction loop keeps exactly the `n` most recent keys, in order, with
      their values. */
  lemma {:induction false} ShrinkToKeepsMostRecent<K(!new), V>(c: Cache<K, V>, n: nat)
    requires Wf(c) && 1 <= n
    ensures var s := ShrinkTo(c, n);
      && Wf(s)
      && s.capacity == c.capacity
      && s.order == Newest(c.order, n)
      && s.contents.Keys <= c.contents.Keys
      && (forall x :: x in s.contents ==> s.contents[x] == c.contents[x])
    decreases |c.order|
  {
    if |c.order| > n {
      var e := Evict(c);
      EvictWf(c);
      ShrinkToKeepsMostRecent(e, n);
      assert ShrinkTo(c, n) == ShrinkTo(e, n);
      NewestOfTail(c.order, n);
      assert e.contents.Keys <= c.contents.Keys;
    }
  }

  /** Lowering the capacity below the size evicts least recent keys until the
      size equals the new capacity; raising it (or lowering it while the
      entries still fit) removes nothing. The new capacity is always stored. */
  lemma SetCapacityEffect<K(!new), V>(c: Cache<K, V>, x: CapacityInput)
    requires Wf(c)
    ensures var c' := SetCapacity(c, x); var n := NormalizeCapacity(x);
      && Wf(c')
      && c'.capacity == n
      && c'.order == Newest(c.order, n)
      && c'.contents.Keys <= c.contents.Keys
      && (forall y :: y in c'.contents ==> c'.contents[y] == c.contents[y])
      && (|c.order| <= n ==> c'.contents == c.contents)
  {
    var n := NormalizeCapacity(x);
    if n < c.capacity {
      ShrinkToKeepsMostRecent(c, n);
      if |c.order| <= n {
        assert ShrinkTo(c, n) == c;
      }
    }
  }

  /** Putting fresh distinct keys keeps the `capacity` most recently inserted
      keys: eviction runs in strict insertion order (tests.js:40-43). */
  lemma {:induction false} PutFreshKeepsMostRecent<K(!new), V>(c: Cache<K, V>, kvs: seq<(K, V)>)
    requires Wf(c)
    requires Distinct(Keys(kvs))
    requires forall i :: 0 <= i < |kvs| ==> kvs[i].0 !in c.contents
    ensures var all := c.order + Keys(kvs); var c' := PutAll(c, kvs);
      && Wf(c')
      && c'.capacity == c.capacity
      && c'.order == Newest(all, c.capacity)
    decreases |kvs|
  {
    if kvs != [] {
      var k, v := kvs[0].0, kvs[0].1;
      var c1 := Put(c, k, v);
      PutWf(c, k, v);
      assert c1.order == (if |c.order| == c.capacity then c.order[1..] else c.order) + [k];
      assert c1.contents.Keys == (if |c.order| == c.capacity then c.contents.Keys - {c.order[0]} else c.contents.Keys) + {k};
      var rest := kvs[1..];
      assert PutAll(c, kvs) == PutAll(c1, rest);
      assert Keys(kvs) == [k] + Keys(rest);
      assert Distinct(Keys(rest)) by {
        forall a, b | 0 <= a < b < |rest| ensures Keys(rest)[a] != Keys(rest)[b] {
          assert Keys(kvs)[a + 1] == Keys(rest)[a] && Keys(kvs)[b + 1] == Keys(rest)[b];
        }
      }
      assert forall i :: 0 <= i < |rest| ==> rest[i].0 !in c1.contents by {
        forall i | 0 <= i < |rest| ensures rest[i].0 !in c1.contents {
          assert kvs[i + 1] == rest[i];
          assert Keys(kvs)[i + 1] != Keys(kvs)[0];
        }
      }
      PutFreshKeepsMostRecent(c1, rest);
      AppendShift(c.order, c1.order, k, Keys(rest), c.capacity, |c.order| == c.capacity);
      assert c.order + Keys(kvs) == c.order + ([k] + Keys(rest));
    }
  }

  /** The first half of the capacity test (tests.js:40-43): on an empty
      cache whose capacity is set to 5, ten `put`s of distinct keys leave
      the last five keys. */
  lemma FillScenario<K(!new), V>(c0: Cache<K, V>, kvs: seq<(K, V)>)
    requires Wf(c0) && c0.order == []
    requires |kvs| == 10 && Distinct(Keys(kvs))
    ensures var c := PutAll(SetCapacity(c0, Integer(5)), kvs);
      && Wf(c) && |c.contents| == 5 && c.order == Keys(kvs)[5..]
  {
    var ks := Keys(kvs);
    var c1 := SetCapacity(c0, Integer(5));
    SetCapacityEffect(c0, Integer(5));
    SizeIsOrderLength(c1);
    assert c1.order == [] && c1.capacity == 5 && c1.contents == map[];
    PutFreshKeepsMostRecent(c1, kvs);
    var c := PutAll(c1, kvs);
    assert c1.order + ks == ks;
    assert c.order == Newest(ks, 5) == ks[5..];
    SizeIsOrderLength(c);
  }

  /** The second half of the capacity test (tests.js:45-47): lowering the
      capacity of a cache holding five keys to 2 keeps the two most recent. */
  lemma ShrinkScenario<K(!new), V>(c: Cache<K, V>)
    requires Wf(c) && |c.order| == 5
    ensures var d := SetCapacity(c, Integer(2));
      |d.contents| == 2 && d.order == c.order[3..]
  {
    SetCapacityEffect(c, Integer(2));
    var d := SetCapacity(c, Integer(2));
    assert d.order == Newest(c.order, 2);
    SizeIsOrderLength(d);
  }

  /** The capacity test (tests.js:40-47) end to end. */
  lemma CapacityTestScenario<K(!new), V>(c0: Cache<K, V>, kvs: seq<(K, V)>)
    requires Wf(c0) && c0.order == []
    requires |kvs| == 10 && Distinct(Keys(kvs))
    ensures var c := PutAll(SetCapacity(c0, Integer(5)), kvs);
      && |c.contents| == 5 && c.order == Keys(kvs)[5..]
      && var d := SetCapacity(c, Integer(2));
         |d.contents| == 2 && d.order == Keys(kvs)[8..]
  {
    FillScenario(c0, kvs);
    var c := PutAll(SetCapacity(c0, Integer(5)), kvs);
    ShrinkScenario(c);
    assert Keys(kvs)[5..][3..] == Keys(kvs)[8..];
  }

  // ---------------------------------------------------------------------
  // `put` as written

  /** `put` as the source writes it (LRUCache.js:73-82): the test
      `this.items.hasOwnProperty(key)` asks whether the Map object has an own
      property named after the key, which storing Map entries never creates,
      so the branch for a stored key is never taken. */
  function PutAsWritten<K(==,!new), V>(c: Cache<K, V>, k: K, v: V): Cache<K, V>
    requires 1 <= c.capacity
  {
    Insert(if |c.order| == c.capacity then Evict(c) else c, k, v)
  }

  /** As written, `put` of a stored key (other than a least recent key about
      to be evicted anyway) leaves the key twice in the recency order, and in
      a full cache also evicts the least recent key although no key is
      added. The corrected `Put` keeps a well-formed cache with the same
      keys. */
  lemma PutAsWrittenBreaksCache<K(!new), V>(c: Cache<K, V>, k: K, v: V)
    requires Wf(c) && k in c.contents
    requires !(|c.order| == c.capacity && k == c.order[0])
    ensures var w := PutAsWritten(c, k, v);
      && !Wf(w)
      && (|c.order| == c.capacity ==> c.order[0] !in w.contents)
    ensures Wf(Put(c, k, v)) && Put(c, k, v).contents.Keys == c.contents.Keys
  {
    var w := PutAsWritten(c, k, v);
    var j :| 0 <= j < |c.order| && c.order[j] == k;
    if |c.order| == c.capacity {
      assert w.order[j - 1] == k && w.order[|w.order| - 1] == k;
    } else {
      assert w.order[j] == k && w.order[|w.order| - 1] == k;
    }
    PutWf(c, k, v);
    PutExisting(c, k, v);
  }

  /** `put` of the least recent key of a full cache evicts the key and adds
      it back, as written, which is what the corrected `put` does too. */
  lemma PutAsWrittenOldestKey<K(!new), V>(c: Cache<K, V>, v: V)
    requires Wf(c) && |c.order| == c.capacity
    ensures PutAsWritten(c, c.order[0], v) == Put(c, c.order[0], v)
  {
    var k := c.order[0];
    assert k in c.contents;
    TouchMovesToEnd(c.order, k);
    RemoveAt(c.order, 0);
    assert Put(c, k, v).order == c.order[1..] + [k];
    assert (c.contents - {k})[k := v] == c.contents[k := v];
  }

  /** The two readings of `put` agree exactly when the key is new, or is the
      least recent key of a full cache (evicted and re-added either way). */
  lemma PutAsWrittenAgrees<K(!new), V>(c: Cache<K, V>, k: K, v: V)
    requires Wf(c)
    ensures PutAsWritten(c, k, v) == Put(c, k, v) <==>
      k !in c.contents || (|c.order| == c.capacity && k == c.order[0])
  {
    if k in c.contents {
      if |c.order| == c.capacity && k == c.order[0] {
        PutAsWrittenOldestKey(c, v);
      } else {
        PutAsWrittenBreaksCache(c, k, v);
      }
    }
  }

  /** The last `n` elements of `s` (all of them when there are fewer). */
  function Newest<K>(s: seq<K>, n: nat): (r: seq<K>)
    ensures |r| == if |s| > n then n else |s|
    ensures forall i :: 0 <= i < |r| ==> r[i] == s[|s| - |r| + i]
  {
    if |s| > n then s[|s| - n..] else s
  }

  lemma NewestOfTail<K>(s: seq<K>, n: nat)
    requires |s| > n
    ensures Newest(s[1..], n) == Newest(s, n)
  {
    assert s[1..][|s| - 1 - n..] == s[|s| - n..];
  }

  lemma AppendShift<K>(o: seq<K>, o1: seq<K>, k: K, ks: seq<K>, n: nat, dropped: bool)
    requires dropped ==> |o| == n > 0
    requires !dropped ==> |o| < n
    requires o1 == (if dropped then o[1..] else o) + [k]
    ensures Newest(o1 + ks, n) == Newest(o + ([k] + ks), n)
  {
    var all := o + ([k] + ks);
    var all1 := o1 + ks;
    if dropped {
      assert all1 == all[1..];
    } else {
      assert all1 == all;
    }
  }

  /** The keys of a sequence of key/value pairs. */
  function Keys<K, V>(kvs: seq<(K, V)>): (ks: seq<K>)
    ensures |ks| == |kvs|
    ensures forall i :: 0 <= i < |kvs| ==> ks[i] == kvs[i].0
  {
    seq(|kvs|, i requires 0 <= i < |kvs| => kvs[i].0)
  }
}
