/** The recency list of the LRU cache as a value (src/ds/LRUCache.h), most recent first. */
module LruModel {
  import opened Wrappers

  predicate NoKey<K(==), V>(l: seq<(K, V)>, k: K) {
    forall i :: 0 <= i < |l| ==> l[i].0 != k
  }

  predicate Unique<K(==), V>(l: seq<(K, V)>) {
    forall i, j :: 0 <= i < j < |l| ==> l[i].0 != l[j].0
  }

  /** The position of a key, or the length of the list. */
  function Position<K(==), V>(l: seq<(K, V)>, k: K): (p: nat)
    ensures p <= |l|
    ensures p < |l| ==> l[p].0 == k
    ensures forall i :: 0 <= i < p ==> l[i].0 != k
  {
    if l == [] || l[0].0 == k then 0 else 1 + Position(l[1..], k)
  }

  function Lookup<K(==), V>(l: seq<(K, V)>, k: K): Option<V> {
    var p := Position(l, k);
    if p < |l| then Some(l[p].1) else None
  }

  function Removed<K(==), V>(l: seq<(K, V)>, k: K): seq<(K, V)> {
    var p := Position(l, k);
    if p < |l| then l[..p] + l[p + 1..] else l
  }

  function Reversed<T>(s: seq<T>): (r: seq<T>)
    ensures |r| == |s|
    ensures forall i :: 0 <= i < |s| ==> r[i] == s[|s| - 1 - i]
  {
    if s == [] then [] else [s[|s| - 1]] + Reversed(s[..|s| - 1])
  }

  lemma ReversedFrom<T>(s: seq<T>, n: nat)
    requires n < |s|
    ensures Reversed(s[n..]) == Reversed(s[n + 1..]) + [s[n]]
  {
    assert |Reversed(s[n..])| == |Reversed(s[n + 1..]) + [s[n]]|;
  }

  /** Evict down to the maximum once the allowance is used up; zero means no bound. */
  function Pruned<K, V>(l: seq<(K, V)>, max: nat, elasticity: nat): (seq<(K, V)>, seq<(K, V)>) {
    if max == 0 || |l| < max + elasticity || |l| <= max then (l, [])
    else (l[..max], Reversed(l[max..]))
  }

  /** The list afterwards, and what the prune callback is called with, in order. */
  function Set<K(==), V>(l: seq<(K, V)>, k: K, v: V, max: nat, elasticity: nat): (seq<(K, V)>, seq<(K, V)>) {
    if Lookup(l, k).Some? then ([(k, v)] + Removed(l, k), [])
    else Pruned([(k, v)] + l, max, elasticity)
  }

  function Get<K(==), V>(l: seq<(K, V)>, k: K): (seq<(K, V)>, Option<V>) {
    var found := Lookup(l, k);
    (if found.Some? then [(k, found.value)] + Removed(l, k) else l, found)
  }

  function Del<K(==), V>(l: seq<(K, V)>, k: K): (seq<(K, V)>, bool) {
    (Removed(l, k), Lookup(l, k).Some?)
  }

  lemma PositionIs<K, V>(l: seq<(K, V)>, k: K, p: nat)
    requires p < |l| && l[p].0 == k && Unique(l)
    ensures Position(l, k) == p
  {
  }

  lemma RemovedKeeps<K, V>(l: seq<(K, V)>, k: K)
    requires Unique(l)
    ensures Unique(Removed(l, k)) && NoKey(Removed(l, k), k)
    ensures forall j :: j != k ==> Lookup(Removed(l, k), j) == Lookup(l, j)
    ensures Lookup(Removed(l, k), k) == None
  {
    forall j | j != k
      ensures Lookup(Removed(l, k), j) == Lookup(l, j)
    {
      RemovedFinds(l, k, j);
    }
  }

  lemma RemovedFinds<K, V>(l: seq<(K, V)>, k: K, j: K)
    requires Unique(l) && Unique(Removed(l, k)) && j != k
    ensures Lookup(Removed(l, k), j) == Lookup(l, j)
  {
    var p, q, r := Position(l, j), Position(l, k), Removed(l, k);
    if q < |l| {
      if p < |l| {
        PositionIs(r, j, if p < q then p else p - 1);
      } else {
        assert NoKey(l, j) && NoKey(r, j);
      }
    }
  }

  /** Setting a new key takes the list beyond the maximum and uses up the allowance. */
  predicate Overflows<K(==), V>(l: seq<(K, V)>, k: K, max: nat, elasticity: nat) {
    Lookup(l, k) == None && max > 0 && |l| >= max && |l| + 1 >= max + elasticity
  }

  /** The least recent pairs go, the callback sees them least recent first, and the pair just
      set stays. */
  lemma SetEvictsLeastRecent<K, V>(l: seq<(K, V)>, k: K, v: V, max: nat, elasticity: nat)
    requires Unique(l)
    ensures var (l', evicted) := Set(l, k, v, max, elasticity);
            && Unique(l') && l' + Reversed(evicted) == [(k, v)] + Removed(l, k)
            && l' != [] && l'[0] == (k, v)
            && (evicted != [] <==> Overflows(l, k, max, elasticity))
            && (evicted != [] ==> |l'| == max)
  {
    RemovedKeeps(l, k);
    var (l', evicted) := Set(l, k, v, max, elasticity);
    var whole := [(k, v)] + Removed(l, k);
    if evicted != [] {
      assert Reversed(evicted) == whole[max..];
    }
  }

  /** How large the list may grow. */
  function Bound(max: nat, elasticity: nat): nat {
    if elasticity == 0 then max else max + elasticity - 1
  }

  // ------------------------------------------------------------------ whole runs

  datatype Op<K, V> = DoSet(key: K, value: V) | DoGet(key: K) | DoDel(key: K) | DoClear

  /** A cache together with what has been observed of it: when each key was last set or hit,
      the value each key was last set to and not deleted since, the keys of these that the cache
      has evicted, and everything the prune callback has seen. */
  datatype History<!K, V> = History(
    list: seq<(K, V)>, clock: nat, used: map<K, nat>, latest: map<K, V>, lost: set<K>, pruned: seq<(K, V)>)

  function Begin<K(==), V>(): History<K, V> {
    History([], 0, map[], map[], {}, [])
  }

  function Keys<K(==), V>(l: seq<(K, V)>): set<K> {
    set i | 0 <= i < |l| :: l[i].0
  }

  function After<K(==), V>(t: History<K, V>, op: Op<K, V>, max: nat, elasticity: nat): History<K, V> {
    match op
    case DoSet(k, v) =>
      var (l, evicted) := Set(t.list, k, v, max, elasticity);
      History(l, t.clock + 1, t.used[k := t.clock + 1], t.latest[k := v],
            (t.lost - {k}) + Keys(evicted), t.pruned + evicted)
    case DoGet(k) =>
      var (l, found) := Get(t.list, k);
      t.(list := l, clock := t.clock + 1, used := if found.Some? then t.used[k := t.clock + 1] else t.used)
    case DoDel(k) =>
      t.(list := Del(t.list, k).0, latest := t.latest - {k}, lost := t.lost - {k})
    case DoClear =>
      t.(list := [], latest := map[], lost := {})
  }

  function AfterAll<K(==), V>(t: History<K, V>, ops: seq<Op<K, V>>, max: nat, elasticity: nat): History<K, V>
    decreases ops
  {
    if ops == [] then t else AfterAll(After(t, ops[0], max, elasticity), ops[1..], max, elasticity)
  }

  /** Entries are in the order of their last use, latest first, and hold the latest values. */
  ghost predicate Ordered<K, V>(l: seq<(K, V)>, used: map<K, nat>, latest: map<K, V>, clock: nat) {
    && (forall k :: k in used ==> used[k] <= clock)
    && (forall i :: 0 <= i < |l| ==> l[i].0 in used && l[i].0 in latest && latest[l[i].0] == l[i].1)
    && (forall i, j :: 0 <= i < j < |l| ==> used[l[j].0] < used[l[i].0])
  }

  ghost predicate Inv<K, V>(t: History<K, V>, max: nat, elasticity: nat) {
    && Ordered(t.list, t.used, t.latest, t.clock)
    && t.latest.Keys == Keys(t.list) + t.lost && Keys(t.list) !! t.lost
    && (max == 0 ==> t.lost == {})
    && (max > 0 ==> |t.list| <= Bound(max, elasticity))
  }

  lemma OrderedIsUnique<K, V>(l: seq<(K, V)>, used: map<K, nat>, latest: map<K, V>, clock: nat)
    requires Ordered(l, used, latest, clock)
    ensures Unique(l)
  {
  }

  lemma LookupKeys<K, V>(l: seq<(K, V)>, k: K)
    ensures Lookup(l, k).Some? <==> k in Keys(l)
  {
  }

  lemma RemovedKeys<K, V>(l: seq<(K, V)>, k: K)
    requires Unique(l)
    ensures Keys(Removed(l, k)) == Keys(l) - {k}
    ensures |Removed(l, k)| == if k in Keys(l) then |l| - 1 else |l|
  {
    RemovedKeeps(l, k);
    forall j
      ensures j in Keys(Removed(l, k)) <==> j in Keys(l) && j != k
    {
      LookupKeys(Removed(l, k), j);
      LookupKeys(l, j);
    }
    LookupKeys(l, k);
  }

  lemma RemovedOrdered<K, V>(l: seq<(K, V)>, used: map<K, nat>, latest: map<K, V>, clock: nat, k: K)
    requires Ordered(l, used, latest, clock)
    ensures Ordered(Removed(l, k), used, latest, clock)
  {
  }

  /** An entry used just now goes in front of entries of other keys. */
  lemma FrontOrdered<K, V>(l: seq<(K, V)>, used: map<K, nat>, latest: map<K, V>, clock: nat, k: K, v: V)
    requires Ordered(l, used, latest, clock) && NoKey(l, k)
    ensures Ordered([(k, v)] + l, used[k := clock + 1], latest[k := v], clock + 1)
  {
  }

  lemma SplitKeys<K, V>(l: seq<(K, V)>, n: nat)
    requires n <= |l| && Unique(l)
    ensures Keys(l) == Keys(l[..n]) + Keys(Reversed(l[n..])) && Keys(l[..n]) !! Keys(Reversed(l[n..]))
  {
    forall k
      ensures k in Keys(Reversed(l[n..])) <==> exists i :: n <= i < |l| && l[i].0 == k
    {
      if i :| n <= i < |l| && l[i].0 == k {
        assert Reversed(l[n..])[|l| - 1 - i] == l[n..][i - n];
      }
      if i :| 0 <= i < |l| - n && Reversed(l[n..])[i].0 == k {
        assert l[|l| - 1 - i].0 == k;
      }
    }
    forall k
      ensures k in Keys(l[..n]) <==> exists i :: 0 <= i < n && l[i].0 == k
    {
      if i :| 0 <= i < n && l[i].0 == k {
        assert l[..n][i].0 == k;
      }
    }
    forall k
      ensures k in Keys(l) <==> k in Keys(l[..n]) || k in Keys(Reversed(l[n..]))
    {
      if i :| 0 <= i < |l| && l[i].0 == k {
        assert i < n || i >= n;
      }
    }
  }

  /** The front entry and the others, before pruning. */
  lemma FrontKeys<K, V>(l: seq<(K, V)>, k: K, v: V)
    ensures Keys([(k, v)] + l) == Keys(l) + {k}
  {
    var l' := [(k, v)] + l;
    assert l'[0].0 == k;
    forall j | j in Keys(l)
      ensures j in Keys(l')
    {
      var i :| 0 <= i < |l| && l[i].0 == j;
      assert l'[i + 1].0 == j;
    }
  }

  lemma SetKeeps<K, V>(t: History<K, V>, k: K, v: V, max: nat, elasticity: nat)
    requires Inv(t, max, elasticity)
    ensures Inv(After(t, DoSet(k, v), max, elasticity), max, elasticity)
  {
    OrderedIsUnique(t.list, t.used, t.latest, t.clock);
    RemovedKeeps(t.list, k);
    RemovedKeys(t.list, k);
    LookupKeys(t.list, k);
    var rest := Removed(t.list, k);
    var whole := [(k, v)] + rest;
    RemovedOrdered(t.list, t.used, t.latest, t.clock, k);
    FrontOrdered(rest, t.used, t.latest, t.clock, k, v);
    FrontKeys(rest, k, v);
    if Overflows(t.list, k, max, elasticity) {
      CutIsKept(t, k, v, max, elasticity, whole);
    } else {
      RoomKeeps(t, k, v, max, elasticity, whole);
    }
  }

  lemma SetCuts<K, V>(l: seq<(K, V)>, k: K, v: V, max: nat, elasticity: nat, whole: seq<(K, V)>)
    requires whole == [(k, v)] + Removed(l, k)
    ensures Overflows(l, k, max, elasticity) ==>
              max < |whole| && Set(l, k, v, max, elasticity) == (whole[..max], Reversed(whole[max..]))
    ensures !Overflows(l, k, max, elasticity) ==> Set(l, k, v, max, elasticity) == (whole, [])
  {
  }

  lemma LostAndKept<K, V>(t: History<K, V>, k: K, whole: set<K>, kept: set<K>, out: set<K>, latest: set<K>,
                          lost: set<K>)
    requires t.latest.Keys == Keys(t.list) + t.lost && Keys(t.list) !! t.lost
    requires whole == (Keys(t.list) - {k}) + {k} && whole == kept + out && kept !! out
    requires latest == t.latest.Keys + {k} && lost == (t.lost - {k}) + out
    ensures latest == kept + lost && kept !! lost
  {
    forall j
      ensures j in latest <==> j in kept + lost
      ensures !(j in kept && j in lost)
    {
      assert j in whole <==> j in kept || j in out;
      assert j in whole <==> j == k || j in Keys(t.list);
    }
  }

  /** The list after the new front entry has gone in, and what it is made of. */
  ghost predicate IsFront<K, V>(t: History<K, V>, k: K, v: V, whole: seq<(K, V)>) {
    && whole == [(k, v)] + Removed(t.list, k)
    && Ordered(whole, t.used[k := t.clock + 1], t.latest[k := v], t.clock + 1)
    && Keys(whole) == (Keys(t.list) - {k}) + {k}
    && (Lookup(t.list, k).Some? <==> k in Keys(t.list))
    && |whole| == if k in Keys(t.list) then |t.list| else |t.list| + 1
  }

  lemma RoomKeeps<K, V>(t: History<K, V>, k: K, v: V, max: nat, elasticity: nat, whole: seq<(K, V)>)
    requires Inv(t, max, elasticity) && IsFront(t, k, v, whole) && !Overflows(t.list, k, max, elasticity)
    ensures Inv(After(t, DoSet(k, v), max, elasticity), max, elasticity)
  {
    var t' := After(t, DoSet(k, v), max, elasticity);
    SetCuts(t.list, k, v, max, elasticity, whole);
    var none: seq<(K, V)> := [];
    assert Keys(none) == {};
    LostAndKept(t, k, Keys(whole), Keys(whole), {}, t'.latest.Keys, t'.lost);
  }

  lemma CutIsKept<K, V>(t: History<K, V>, k: K, v: V, max: nat, elasticity: nat, whole: seq<(K, V)>)
    requires Inv(t, max, elasticity) && IsFront(t, k, v, whole) && Overflows(t.list, k, max, elasticity)
    ensures Inv(After(t, DoSet(k, v), max, elasticity), max, elasticity)
  {
    var t' := After(t, DoSet(k, v), max, elasticity);
    SetCuts(t.list, k, v, max, elasticity, whole);
    CutKeeps(whole, t'.used, t'.latest, t'.clock, max);
    LostAndKept(t, k, Keys(whole), Keys(t'.list), Keys(Reversed(whole[max..])), t'.latest.Keys, t'.lost);
  }

  lemma CutKeeps<K, V>(whole: seq<(K, V)>, used: map<K, nat>, latest: map<K, V>, clock: nat, n: nat)
    requires Ordered(whole, used, latest, clock) && n <= |whole|
    ensures Ordered(whole[..n], used, latest, clock)
    ensures Keys(whole) == Keys(whole[..n]) + Keys(Reversed(whole[n..]))
    ensures Keys(whole[..n]) !! Keys(Reversed(whole[n..]))
  {
    OrderedIsUnique(whole, used, latest, clock);
    SplitKeys(whole, n);
  }

  lemma GetKeeps<K, V>(t: History<K, V>, k: K, max: nat, elasticity: nat)
    requires Inv(t, max, elasticity)
    ensures Inv(After(t, DoGet(k), max, elasticity), max, elasticity)
  {
    OrderedIsUnique(t.list, t.used, t.latest, t.clock);
    LookupKeys(t.list, k);
    var found := Lookup(t.list, k);
    if found.Some? {
      var rest := Removed(t.list, k);
      RemovedKeeps(t.list, k);
      RemovedKeys(t.list, k);
      RemovedOrdered(t.list, t.used, t.latest, t.clock, k);
      FrontOrdered(rest, t.used, t.latest, t.clock, k, found.value);
      assert t.latest[k := found.value] == t.latest;
      FrontKeys(rest, k, found.value);
    }
  }

  lemma DelKeeps<K, V>(t: History<K, V>, k: K, max: nat, elasticity: nat)
    requires Inv(t, max, elasticity)
    ensures Inv(After(t, DoDel(k), max, elasticity), max, elasticity)
  {
    OrderedIsUnique(t.list, t.used, t.latest, t.clock);
    RemovedKeeps(t.list, k);
    RemovedKeys(t.list, k);
    RemovedOrdered(t.list, t.used, t.latest, t.clock, k);
  }

  lemma OpKeeps<K, V>(t: History<K, V>, op: Op<K, V>, max: nat, elasticity: nat)
    requires Inv(t, max, elasticity)
    ensures Inv(After(t, op, max, elasticity), max, elasticity)
  {
    match op
    case DoSet(k, v) => SetKeeps(t, k, v, max, elasticity);
    case DoGet(k) => GetKeeps(t, k, max, elasticity);
    case DoDel(k) => DelKeeps(t, k, max, elasticity);
    case DoClear =>
  }

  lemma {:induction false} OpsKeep<K, V>(t: History<K, V>, ops: seq<Op<K, V>>, max: nat, elasticity: nat)
    requires Inv(t, max, elasticity)
    ensures Inv(AfterAll(t, ops, max, elasticity), max, elasticity)
    decreases ops
  {
    if ops != [] {
      OpKeeps(t, ops[0], max, elasticity);
      OpsKeep(After(t, ops[0], max, elasticity), ops[1..], max, elasticity);
    }
  }

  /** Over every run from an empty cache: a lookup finds the value last set and not deleted
      since, exactly for the keys that have not been evicted; the size stays within its bound;
      and with no maximum nothing is ever evicted. */
  lemma CacheRun<K, V>(ops: seq<Op<K, V>>, max: nat, elasticity: nat, k: K)
    ensures var t := AfterAll(Begin(), ops, max, elasticity);
            && Lookup(t.list, k) == (if k in t.latest && k !in t.lost then Some(t.latest[k]) else None)
            && (max > 0 ==> |t.list| <= Bound(max, elasticity))
            && (max == 0 ==> t.lost == {})
  {
    OpsKeep(Begin(), ops, max, elasticity);
    LookupKeys(AfterAll(Begin(), ops, max, elasticity).list, k);
  }

  /** The evicted entries were all used before those that stay, and come in the order of
      their last use. */
  predicate OldestOut<K, V>(l: seq<(K, V)>, evicted: seq<(K, V)>, used: map<K, nat>) {
    && (forall i :: 0 <= i < |evicted| ==> evicted[i].0 in used)
    && (forall i :: 0 <= i < |l| ==> l[i].0 in used)
    && (forall i, j :: 0 <= i < |evicted| && 0 <= j < |l| ==> used[evicted[i].0] < used[l[j].0])
    && (forall i, j :: 0 <= i < j < |evicted| ==> used[evicted[i].0] < used[evicted[j].0])
  }

  lemma SuffixIsOlder<K, V>(whole: seq<(K, V)>, l: seq<(K, V)>, evicted: seq<(K, V)>,
                            used: map<K, nat>, latest: map<K, V>, clock: nat)
    requires Ordered(whole, used, latest, clock) && whole == l + Reversed(evicted)
    ensures OldestOut(l, evicted, used)
  {
    forall i | 0 <= i < |evicted|
      ensures evicted[i] == whole[|whole| - 1 - i]
    {
      assert Reversed(evicted)[|evicted| - 1 - i] == evicted[i];
    }
    assert forall j :: 0 <= j < |l| ==> l[j] == whole[j];
  }

  lemma FrontAfterSet<K, V>(t: History<K, V>, k: K, v: V, max: nat, elasticity: nat)
    requires Inv(t, max, elasticity)
    ensures Unique(t.list) && Ordered([(k, v)] + Removed(t.list, k), t.used[k := t.clock + 1], t.latest[k := v],
            t.clock + 1)
  {
    OrderedIsUnique(t.list, t.used, t.latest, t.clock);
    RemovedKeeps(t.list, k);
    RemovedOrdered(t.list, t.used, t.latest, t.clock, k);
    FrontOrdered(Removed(t.list, k), t.used, t.latest, t.clock, k, v);
  }

  lemma SetEvictsOldest<K, V>(t: History<K, V>, k: K, v: V, max: nat, elasticity: nat)
    requires Inv(t, max, elasticity)
    ensures var (l, evicted) := Set(t.list, k, v, max, elasticity);
            OldestOut(l, evicted, t.used[k := t.clock + 1]) && l != [] && l[0] == (k, v)
  {
    FrontAfterSet(t, k, v, max, elasticity);
    SetEvictsLeastRecent(t.list, k, v, max, elasticity);
    var (l, evicted) := Set(t.list, k, v, max, elasticity);
    SuffixIsOlder([(k, v)] + Removed(t.list, k), l, evicted, t.used[k := t.clock + 1], t.latest[k := v], t.clock + 1);
  }

  /** At every point of every run an eviction takes the least recently used entries, the callback
      sees them in the order of their last use, and the entry just set stays. */
  lemma EvictsLeastRecentlyUsed<K, V>(ops: seq<Op<K, V>>, max: nat, elasticity: nat, k: K, v: V)
    ensures var t := AfterAll(Begin(), ops, max, elasticity);
            var (l, evicted) := Set(t.list, k, v, max, elasticity);
            OldestOut(l, evicted, t.used[k := t.clock + 1]) && l != [] && l[0] == (k, v)
  {
    OpsKeep(Begin(), ops, max, elasticity);
    SetEvictsOldest(AfterAll(Begin(), ops, max, elasticity), k, v, max, elasticity);
  }

  // ------------------------------------------------------------ what callers are told

  /** At every point of every run: a get hits exactly the keys that were set, not deleted since and
      not evicted, and tells the value last set.  A hit is in front afterwards; what other keys
      find stays. */
  lemma HitsIff<K, V>(ops: seq<Op<K, V>>, max: nat, elasticity: nat, k: K)
    ensures var t := AfterAll(Begin(), ops, max, elasticity);
            var (l, found) := Get(t.list, k);
            && (found.Some? <==> k in t.latest && k !in t.lost)
            && (found.Some? ==> found.value == t.latest[k] && l != [] && l[0] == (k, t.latest[k]))
            && (found.None? ==> l == t.list)
            && |l| == |t.list| && forall j :: Lookup(l, j) == Lookup(t.list, j)
  {
    var t := AfterAll(Begin(), ops, max, elasticity);
    OpsKeep(Begin(), ops, max, elasticity);
    CacheRun(ops, max, elasticity, k);
    OrderedIsUnique(t.list, t.used, t.latest, t.clock);
    RemovedKeeps(t.list, k);
    RemovedKeys(t.list, k);
    LookupKeys(t.list, k);
    FrontFinds(Removed(t.list, k), k, t.list);
  }

  /** An entry in front is found, and hides nothing of the other keys. */
  lemma {:induction false} FrontFinds<K, V>(rest: seq<(K, V)>, k: K, l: seq<(K, V)>)
    requires forall j :: j != k ==> Lookup(rest, j) == Lookup(l, j)
    ensures forall v, j :: j != k ==> Lookup([(k, v)] + rest, j) == Lookup(l, j)
    ensures forall v :: Lookup([(k, v)] + rest, k) == Some(v)
  {
    forall v, j
      ensures Lookup([(k, v)] + rest, j) == if j == k then Some(v) else Lookup(rest, j)
    {
      assert ([(k, v)] + rest)[1..] == rest;
    }
  }

  /** And a delete answers true exactly for these keys, and removes just the one. */
  lemma DeletesIff<K, V>(ops: seq<Op<K, V>>, max: nat, elasticity: nat, k: K)
    ensures var t := AfterAll(Begin(), ops, max, elasticity);
            var (l, found) := Del(t.list, k);
            && (found <==> k in t.latest && k !in t.lost)
            && |l| == |t.list| - (if found then 1 else 0) && Lookup(l, k) == None
            && forall j :: j != k ==> Lookup(l, j) == Lookup(t.list, j)
  {
    var t := AfterAll(Begin(), ops, max, elasticity);
    OpsKeep(Begin(), ops, max, elasticity);
    CacheRun(ops, max, elasticity, k);
    OrderedIsUnique(t.list, t.used, t.latest, t.clock);
    RemovedKeeps(t.list, k);
    RemovedKeys(t.list, k);
    LookupKeys(t.list, k);
  }

  /** At every point of every run a set evicts exactly if there is a maximum, the key is new and the
      list comes to hold more than the maximum and at least the maximum and the allowance together;
      just the maximum is kept then.  So no list ever holds more than the maximum unless it is
      still within the allowance. */
  lemma EvictsIff<K, V>(ops: seq<Op<K, V>>, max: nat, elasticity: nat, k: K, v: V)
    ensures var t := AfterAll(Begin(), ops, max, elasticity);
            var (l, evicted) := Set(t.list, k, v, max, elasticity);
            && (evicted != [] <==> max > 0 && (forall i :: 0 <= i < |t.list| ==> t.list[i].0 != k)
                                   && |t.list| + 1 > max && |t.list| + 1 >= max + elasticity)
            && (evicted != [] ==> |l| == max)
            && |l| + |evicted| == |t.list| + (if exists i :: 0 <= i < |t.list| && t.list[i].0 == k then 0 else 1)
            && (max > 0 ==> |t.list| <= max || |t.list| < max + elasticity)
  {
    var t := AfterAll(Begin(), ops, max, elasticity);
    OpsKeep(Begin(), ops, max, elasticity);
    OrderedIsUnique(t.list, t.used, t.latest, t.clock);
    SetEvictsLeastRecent(t.list, k, v, max, elasticity);
    RemovedKeys(t.list, k);
    LookupKeys(t.list, k);
    var (l, evicted) := Set(t.list, k, v, max, elasticity);
    assert |l + Reversed(evicted)| == |[(k, v)] + Removed(t.list, k)|;
  }
}
