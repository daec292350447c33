/** The LRU cache as an object (src/ds/LRUCache.h): a list of entries, most recent first, and a
    map from keys to the entries themselves.  An entry's value is overwritten in place. */
module LruObjects {
  import opened Wrappers
  import L = LruModel

  class Entry<K, V> {
    const key: K
    var value: V

    constructor (key: K, value: V)
      ensures this.key == key && this.value == value
    {
      this.key, this.value := key, value;
    }
  }

  // ------------------------------------------------------------ map against list

  /** The map sends each listed key to its entry, and holds nothing else. */
  ghost predicate Linked<K, V>(keys: seq<Entry<K, V>>, cache: map<K, Entry<K, V>>)
    decreases |keys|
  {
    if keys == [] then cache == map[]
    else
      && keys[0].key in cache && cache[keys[0].key] == keys[0]
      && Linked(keys[1..], cache - {keys[0].key})
  }

  lemma {:induction false} Counted<K, V>(keys: seq<Entry<K, V>>, cache: map<K, Entry<K, V>>)
    requires Linked(keys, cache)
    ensures |cache| == |keys|
    decreases |keys|
  {
    if keys != [] {
      Counted(keys[1..], cache - {keys[0].key});
      assert cache.Keys == (cache - {keys[0].key}).Keys + {keys[0].key};
    }
  }

  lemma {:induction false} ListedIsMapped<K, V>(keys: seq<Entry<K, V>>, cache: map<K, Entry<K, V>>, i: nat)
    requires Linked(keys, cache) && i < |keys|
    ensures keys[i].key in cache && cache[keys[i].key] == keys[i]
    decreases |keys|
  {
    if i > 0 {
      ListedIsMapped(keys[1..], cache - {keys[0].key}, i - 1);
    }
  }

  lemma {:induction false} MappedIsListed<K, V>(keys: seq<Entry<K, V>>, cache: map<K, Entry<K, V>>, k: K)
    returns (i: nat)
    requires Linked(keys, cache) && k in cache
    ensures i < |keys| && keys[i] == cache[k] && keys[i].key == k
    decreases |keys|
  {
    if k == keys[0].key {
      i := 0;
    } else {
      i := MappedIsListed(keys[1..], cache - {keys[0].key}, k);
      i := i + 1;
    }
  }

  /** Unlinking one entry anywhere in the list and unmapping its key. */
  lemma {:induction false} Unlinked<K, V>(keys: seq<Entry<K, V>>, cache: map<K, Entry<K, V>>, p: nat)
    requires Linked(keys, cache) && p < |keys|
    ensures keys[p].key in cache && cache[keys[p].key] == keys[p]
    ensures Linked(keys[..p] + keys[p + 1..], cache - {keys[p].key})
    decreases |keys|
  {
    var rest := keys[..p] + keys[p + 1..];
    if p == 0 {
      assert rest == keys[1..];
    } else {
      var k, k0 := keys[p].key, keys[0].key;
      Unlinked(keys[1..], cache - {k0}, p - 1);
      assert rest[1..] == keys[1..][..p - 1] + keys[1..][p..];
      assert cache - {k0} - {k} == cache - {k} - {k0};
    }
  }

  /** The map and the list are in bijection. */
  lemma Bijection<K, V>(keys: seq<Entry<K, V>>, cache: map<K, Entry<K, V>>)
    requires Linked(keys, cache)
    ensures |cache| == |keys|
    ensures forall i :: 0 <= i < |keys| ==> keys[i].key in cache && cache[keys[i].key] == keys[i]
    ensures forall k :: k in cache ==> exists i :: 0 <= i < |keys| && keys[i].key == k
    ensures forall i, j :: 0 <= i < j < |keys| ==> keys[i].key != keys[j].key
  {
    Counted(keys, cache);
    forall i | 0 <= i < |keys|
      ensures keys[i].key in cache && cache[keys[i].key] == keys[i]
    {
      ListedIsMapped(keys, cache, i);
    }
    forall k | k in cache
      ensures exists i :: 0 <= i < |keys| && keys[i].key == k
    {
      var i := MappedIsListed(keys, cache, k);
    }
    forall i, j | 0 <= i < j < |keys|
      ensures keys[i].key != keys[j].key
    {
      KeysDiffer(keys, cache, i, j);
    }
  }

  lemma {:induction false} KeysDiffer<K, V>(keys: seq<Entry<K, V>>, cache: map<K, Entry<K, V>>, i: nat, j: nat)
    requires Linked(keys, cache) && i < j < |keys|
    ensures keys[i].key != keys[j].key
    decreases |keys|
  {
    if i == 0 {
      ListedIsMapped(keys[1..], cache - {keys[0].key}, j - 1);
    } else {
      KeysDiffer(keys[1..], cache - {keys[0].key}, i - 1, j - 1);
    }
  }

  // ------------------------------------------------------------- the list's content

  ghost predicate Shows<K, V>(keys: seq<Entry<K, V>>, items: seq<(K, V)>)
    reads keys
  {
    |items| == |keys| && forall i :: 0 <= i < |keys| ==> items[i] == (keys[i].key, keys[i].value)
  }

  /** The place of an entry in the list, which its iterator stands for. */
  function Place<K, V>(keys: seq<Entry<K, V>>, e: Entry<K, V>): (p: nat)
    requires e in keys
    ensures p < |keys| && keys[p] == e
  {
    if keys[0] == e then 0 else 1 + Place(keys[1..], e)
  }

  lemma {:induction false} PlaceIs<K, V>(keys: seq<Entry<K, V>>, cache: map<K, Entry<K, V>>, i: nat)
    requires Linked(keys, cache) && i < |keys|
    ensures Place(keys, keys[i]) == i
    decreases |keys|
  {
    if i > 0 {
      KeysDiffer(keys, cache, 0, i);
      PlaceIs(keys[1..], cache - {keys[0].key}, i - 1);
    }
  }

  class LruCache<K(==), V> {
    var keys: seq<Entry<K, V>>
    var cache: map<K, Entry<K, V>>
    var maxSize: nat
    var elasticity: nat

    ghost var items: seq<(K, V)>    // the recency list
    ghost var pruned: seq<(K, V)>   // what the prune callback has been called with

    ghost predicate Valid()
      reads this, keys
    {
      Linked(keys, cache) && Shows(keys, items)
    }

    /** `find`: the entry is where the list has its key. */
    lemma FoundAt(k: K)
      requires Valid()
      ensures k in cache <==> L.Lookup(items, k).Some?
      ensures k in cache ==> cache[k] in keys && cache[k].key == k
      ensures k in cache ==> Place(keys, cache[k]) == L.Position(items, k) && L.Lookup(items, k) == Some(cache[k].value)
    {
      var p := L.Position(items, k);
      if p < |items| {
        ListedIsMapped(keys, cache, p);
      }
      if k in cache {
        var i := MappedIsListed(keys, cache, k);
        SamePlace(k, p, i);
      }
    }

    lemma SamePlace(k: K, p: nat, i: nat)
      requires Valid() && k in cache && p == L.Position(items, k)
      requires i < |keys| && keys[i] == cache[k] && keys[i].key == k
      ensures p == i == Place(keys, cache[k])
    {
      assert items[i].0 == k;
      if p < i {
        KeysDiffer(keys, cache, p, i);
      }
      PlaceIs(keys, cache, i);
    }

    constructor (maxSize: nat, elasticity: nat)
      ensures Valid() && items == [] && pruned == []
      ensures this.maxSize == maxSize && this.elasticity == elasticity
    {
      keys, cache, items, pruned := [], map[], [], [];
      this.maxSize, this.elasticity := maxSize, elasticity;
    }

    /** `splice` to the front: the entry keeps its identity, so the map needs no change. */
    method MoveToFront(e: Entry<K, V>)
      requires Valid() && e in keys
      modifies `keys, `items
      ensures Valid() && |keys| > 0 && keys[0] == e
      ensures var p := Place(old(keys), e);
              && p < |old(items)|
              && items == [old(items)[p]] + (old(items)[..p] + old(items)[p + 1..])
    {
      var p := Place(keys, e);
      Unlinked(keys, cache, p);
      ghost var rest := keys[..p] + keys[p + 1..];
      keys := [e] + (keys[..p] + keys[p + 1..]);
      items := [items[p]] + (items[..p] + items[p + 1..]);
      assert keys[1..] == rest;
      assert Shows(keys, items);
    }

    method Get(k: K) returns (v: Option<V>)
      requires Valid()
      modifies `keys, `items
      ensures Valid() && (items, v) == L.Get(old(items), k)
    {
      FoundAt(k);
      if k in cache {
        var e := cache[k];
        MoveToFront(e);
        return Some(e.value);
      }
      return None;
    }

    method Del(k: K) returns (found: bool)
      requires Valid()
      modifies `keys, `items, `cache
      ensures Valid() && (items, found) == L.Del(old(items), k)
    {
      FoundAt(k);
      if k !in cache {
        return false;
      }
      Unlink(Place(keys, cache[k]));
      return true;
    }

    /** `erase` in the list and in the map. */
    method Unlink(p: nat)
      requires Valid() && p < |keys|
      modifies `keys, `items, `cache
      ensures Valid() && items == old(items)[..p] + old(items)[p + 1..]
    {
      Unlinked(keys, cache, p);
      cache := cache - {keys[p].key};
      keys, items := keys[..p] + keys[p + 1..], items[..p] + items[p + 1..];
    }

    /** Set the value of an entry that is there, in place. */
    method Overwrite(e: Entry<K, V>, v: V)
      requires Valid() && e in keys
      modifies `items, e
      ensures Valid() && items == old(items)[Place(keys, e) := (e.key, v)]
    {
      ghost var p := Place(keys, e);
      forall i | 0 <= i < |keys| && i != p
        ensures keys[i] != e
      {
        KeysDiffer(keys, cache, if i < p then i else p, if i < p then p else i);
      }
      e.value := v;
      items := items[p := (e.key, v)];
    }

    method PushFront(k: K, v: V)
      requires Valid() && k !in cache
      modifies `keys, `items, `cache
      ensures Valid() && items == [(k, v)] + old(items)
    {
      var e := new Entry(k, v);
      cache := cache[k := e];
      keys, items := [e] + keys, [(k, v)] + items;
      assert keys[1..] == old(keys) && cache - {k} == old(cache);
    }

    /** Show the last entry to the callback and drop it. */
    method PopBack()
      requires Valid() && |keys| > 0
      modifies `keys, `items, `cache, `pruned
      ensures Valid() && items == old(items)[..|old(items)| - 1]
      ensures pruned == old(pruned) + [old(items)[|old(items)| - 1]]
    {
      var back := keys[|keys| - 1];
      pruned := pruned + [(back.key, back.value)];
      Unlink(|keys| - 1);
    }

    method PruneOne(ghost l: seq<(K, V)>, ghost seen: seq<(K, V)>, ghost count: nat)
      requires Valid() && PrunedTo(l, seen, count) && |keys| > maxSize
      modifies `keys, `items, `cache, `pruned
      ensures Valid() && PrunedTo(l, seen, count + 1) && |keys| < |old(keys)|
    {
      PopBack();
      L.ReversedFrom(l, |items|);
    }

    method Prune() returns (count: nat)
      requires Valid()
      modifies `keys, `items, `cache, `pruned
      ensures Valid()
      ensures var (l, evicted) := L.Pruned(old(items), maxSize, elasticity);
              items == l && pruned == old(pruned) + evicted && count == |evicted|
    {
      count := 0;
      Counted(keys, cache);
      if maxSize == 0 || |cache| < maxSize + elasticity {
        return;
      }
      while |cache| > maxSize
        invariant Valid() && |cache| == |keys|
        invariant PrunedTo(old(items), old(pruned), count)
        decreases |keys|
      {
        PruneOne(old(items), old(pruned), count);
        Counted(keys, cache);
        count := count + 1;
      }
    }

    /** The last `count` entries of `l` have gone, last first. */
    ghost predicate PrunedTo(l: seq<(K, V)>, seen: seq<(K, V)>, count: nat)
      reads this
    {
      && count + |items| == |l| && items == l[..|items|]
      && (|items| >= maxSize || count == 0)
      && pruned == seen + L.Reversed(l[|items|..])
    }

    method SetExisting(k: K, v: V)
      requires Valid() && k in cache
      modifies `keys, `items, keys
      ensures Valid() && items == [(k, v)] + L.Removed(old(items), k)
    {
      FoundAt(k);
      var e := cache[k];
      Overwrite(e, v);
      MoveToFront(e);
    }

    method Set(k: K, v: V)
      requires Valid()
      modifies `keys, `items, `cache, `pruned, keys
      ensures Valid()
      ensures var (l, evicted) := L.Set(old(items), k, v, maxSize, elasticity);
              items == l && pruned == old(pruned) + evicted
    {
      FoundAt(k);
      if k in cache {
        SetExisting(k, v);
        return;
      }
      PushFront(k, v);
      var _ := Prune();
    }

    method Clear()
      requires Valid()
      modifies `keys, `items, `cache
      ensures Valid() && items == []
    {
      cache := map[];
      keys, items := [], [];
    }
  }
}
