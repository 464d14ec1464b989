/** `LRUCache` from src/jinja2/utils.py as an immutable value: a capacity, the
    key/value dict `_mapping`, and the recency deque `_queue` whose front is
    the least recently used key and whose back is the most recently used one.
    Every operation returns the new state instead of mutating; the lock that
    serialises them in the source is abstracted away (each call is atomic). */
module LruCache {
  import opened Errors
  import opened Deques

  datatype Cache<K(==), V> = Cache(capacity: int, mapping: map<K, V>, queue: seq<K>) {

    /** The class invariant: the queue lists each key of the mapping exactly
        once, and the mapping never holds more than `capacity` entries. */
    predicate Valid() {
      && capacity >= 1
      && NoDup(queue)
      && Elems(queue) == mapping.Keys
      && |mapping| <= capacity
    }
  }

  /** Under the invariant the queue is as long as the mapping. */
  lemma ValidSizes<K, V>(c: Cache<K, V>)
    requires c.Valid()
    ensures |c.queue| == |c.mapping|
  {
    NoDupCard(c.queue);
    assert |c.mapping| == |c.mapping.Keys|;
  }

  /** `__init__`: an empty cache of the given capacity. The source does not
      check the capacity; only a positive one yields a usable cache. */
  function Init<K, V>(capacity: int): (c: Cache<K, V>)
    ensures c.capacity == capacity
    ensures |c.mapping| == 0 && |c.queue| == 0
    ensures capacity >= 1 ==> c.Valid()
  {
    Cache(capacity, map[], [])
  }

  /** `copy`: a fresh cache of the same capacity, filled by updating its empty
      dict with the mapping and extending its empty deque with the queue. */
  function Copy<K, V>(c: Cache<K, V>): (r: Cache<K, V>)
    ensures r == c
    ensures c.Valid() ==> r.Valid()
  {
    var rv := Init<K, V>(c.capacity);
    Cache(rv.capacity, rv.mapping + c.mapping, rv.queue + c.queue)
  }

  /** `__contains__`: membership in the mapping, which under the invariant is
      membership in the recency queue. */
  function Contains<K, V>(c: Cache<K, V>, key: K): (b: bool)
    ensures c.Valid() ==> (b <==> key in c.queue)
  {
    key in c.mapping
  }

  /** `__len__`: the number of entries, which under the invariant is the
      length of the recency queue and at most the capacity. */
  function Len<K, V>(c: Cache<K, V>): (n: nat)
    ensures c.Valid() ==> n == |c.queue| && n <= c.capacity
  {
    LenFacts(c);
    |c.mapping|
  }

  lemma LenFacts<K, V>(c: Cache<K, V>)
    ensures c.Valid() ==> |c.queue| == |c.mapping| <= c.capacity
  {
    if c.Valid() {
      ValidSizes(c);
    }
  }

  /** The queue after `key` is touched: every other key keeps its place and
      `key` moves to the back. */
  function Promoted<K(==)>(q: seq<K>, key: K): seq<K> {
    Erase(q, key) + [key]
  }

  lemma PromotedValid<K, V>(c: Cache<K, V>, key: K, value: V)
    requires c.Valid() && key in c.mapping
    ensures Cache(c.capacity, c.mapping[key := value], Promoted(c.queue, key)).Valid()
  {
    EraseNoDup(c.queue, key);
    NoDupSnoc(Erase(c.queue, key), key);
    assert c.mapping[key := value].Keys == c.mapping.Keys;
  }

  /** `__getitem__`: the value of `key`, promoting `key` to most recently used
      unless it already is. A missing key raises `KeyError`; the `IndexError`
      of `_queue[-1]` and the swallowed `ValueError` of `_remove` can only
      arise in a state that breaks the invariant. */
  function GetItem<K, V>(c: Cache<K, V>, key: K): (r: Result<(V, Cache<K, V>)>)
    ensures key !in c.mapping ==> r == Raised(KeyError)
    ensures c.Valid() && key in c.mapping ==>
      && r.Ok?
      && r.value.0 == c.mapping[key]
      && r.value.1.capacity == c.capacity
      && r.value.1.mapping == c.mapping
      && r.value.1.queue == Promoted(c.queue, key)
      && r.value.1.Valid()
    ensures c.Valid() && key in c.mapping && c.queue[|c.queue| - 1] == key ==>
      r == Ok((c.mapping[key], c))
  {
    if key !in c.mapping then Raised(KeyError)
    else
      var rv := c.mapping[key];
      if |c.queue| == 0 then Raised(IndexError)
      else if c.queue[|c.queue| - 1] != key then
        var rest := match RemoveFirst(c.queue, key)
          case Some(q) => q
          case None => c.queue;
        PromoteFacts(c, key);
        Ok((rv, c.(queue := rest + [key])))
      else
        LastKeyFacts(c, key);
        Ok((rv, c))
  }

  /** Under the invariant, `_remove` followed by `append` is promotion, and
      promotion keeps the invariant. */
  lemma PromoteFacts<K, V>(c: Cache<K, V>, key: K)
    requires key in c.mapping
    ensures c.Valid() ==>
      && RemoveFirst(c.queue, key) == Some(Erase(c.queue, key))
      && c.(queue := Promoted(c.queue, key)).Valid()
  {
    if c.Valid() {
      RemoveFirstIsErase(c.queue, key);
      PromotedValid(c, key, c.mapping[key]);
      assert c.mapping[key := c.mapping[key]] == c.mapping;
    }
  }

  /** Under the invariant, promoting the key that is already last changes
      nothing. */
  lemma LastKeyFacts<K, V>(c: Cache<K, V>, key: K)
    requires |c.queue| > 0 && c.queue[|c.queue| - 1] == key
    ensures c.Valid() ==> Promoted(c.queue, key) == c.queue
  {
    if c.Valid() {
      EraseLast(c.queue);
    }
  }

  /** Under the invariant neither defensive path of `__getitem__` is taken:
      a present key is in the queue, so `_queue[-1]` exists and `_remove`
      does not raise `ValueError`. */
  lemma GetItemDefensivePathsUnreachable<K, V>(c: Cache<K, V>, key: K)
    requires c.Valid() && key in c.mapping
    ensures |c.queue| > 0
    ensures RemoveFirst(c.queue, key).Some?
    ensures GetItem(c, key).Ok?
  {
    assert key in Elems(c.queue);
  }

  /** `__setitem__`: store `value` under `key` and make `key` most recently
      used. A present key is only moved; a new key evicts the front of the
      queue when the cache is full. */
  function SetItem<K, V>(c: Cache<K, V>, key: K, value: V): (c': Cache<K, V>)
    requires c.Valid()
    ensures c'.Valid()
    ensures c'.capacity == c.capacity
    ensures key in c'.mapping && c'.mapping[key] == value
    ensures |c'.queue| > 0 && c'.queue[|c'.queue| - 1] == key
    // every other surviving key keeps its value and its relative order
    ensures forall k :: k in c'.mapping && k != key ==> k in c.mapping && c'.mapping[k] == c.mapping[k]
    ensures c'.queue == Restrict(c.queue, c'.mapping.Keys - {key}) + [key]
    // a present key: no eviction
    ensures key in c.mapping ==> c'.mapping.Keys == c.mapping.Keys
    // a new key with room: nothing is evicted
    ensures key !in c.mapping && |c.mapping| < c.capacity ==>
      c'.mapping.Keys == c.mapping.Keys + {key}
    // a new key into a full cache: exactly the front key is evicted
    ensures key !in c.mapping && |c.mapping| == c.capacity ==>
      && |c.queue| > 0
      && c.queue[0] != key
      && c'.mapping.Keys == c.mapping.Keys - {c.queue[0]} + {key}
      && |c'.mapping| == c.capacity
  {
    if key in c.mapping then
      RemoveFirstIsErase(c.queue, key);
      var rest := RemoveFirst(c.queue, key).value;
      SetPresentFacts(c, key, value);
      Cache(c.capacity, c.mapping[key := value], rest + [key])
    else if |c.mapping| == c.capacity then
      EvictValid(c, key, value);
      var oldest := c.queue[0];
      SetEvictFacts(c, key, value);
      Cache(c.capacity, (c.mapping - {oldest})[key := value], c.queue[1..] + [key])
    else
      SetFreshFacts(c, key, value);
      Cache(c.capacity, c.mapping[key := value], c.queue + [key])
  }

  lemma SetPresentFacts<K, V>(c: Cache<K, V>, key: K, value: V)
    requires c.Valid() && key in c.mapping
    ensures var c' := Cache(c.capacity, c.mapping[key := value], Promoted(c.queue, key));
      && c'.Valid()
      && c'.queue == Restrict(c.queue, c'.mapping.Keys - {key}) + [key]
      && c'.mapping.Keys == c.mapping.Keys
  {
    PromotedValid(c, key, value);
    RestrictAll(c.queue, c.mapping.Keys);
    RestrictShrink(c.queue, c.mapping.Keys, key);
    assert c.mapping[key := value].Keys == c.mapping.Keys;
  }

  lemma SetEvictFacts<K, V>(c: Cache<K, V>, key: K, value: V)
    requires c.Valid() && key !in c.mapping && |c.mapping| == c.capacity && |c.queue| > 0
    ensures var m := (c.mapping - {c.queue[0]})[key := value];
      && m.Keys == c.mapping.Keys - {c.queue[0]} + {key}
      && c.queue[1..] + [key] == Restrict(c.queue, m.Keys - {key}) + [key]
  {
    var oldest := c.queue[0];
    var m := (c.mapping - {oldest})[key := value];
    assert oldest in Elems(c.queue);
    RestrictAll(c.queue, c.mapping.Keys);
    RestrictShrink(c.queue, c.mapping.Keys, oldest);
    EraseFront(c.queue);
    assert m.Keys - {key} == c.mapping.Keys - {oldest};
  }

  lemma SetFreshFacts<K, V>(c: Cache<K, V>, key: K, value: V)
    requires c.Valid() && key !in c.mapping && |c.mapping| < c.capacity
    ensures var c' := Cache(c.capacity, c.mapping[key := value], c.queue + [key]);
      && c'.Valid()
      && c'.queue == Restrict(c.queue, c'.mapping.Keys - {key}) + [key]
      && c'.mapping.Keys == c.mapping.Keys + {key}
  {
    var m := c.mapping[key := value];
    NoDupSnoc(c.queue, key);
    RestrictAll(c.queue, c.mapping.Keys);
    assert m.Keys == c.mapping.Keys + {key};
    assert m.Keys - {key} == c.mapping.Keys;
    assert |m| == |m.Keys| == |c.mapping.Keys| + 1;
    assert Elems(c.queue + [key]) == Elems(c.queue) + {key};
  }

  lemma EvictValid<K, V>(c: Cache<K, V>, key: K, value: V)
    requires c.Valid() && key !in c.mapping && |c.mapping| == c.capacity
    ensures |c.queue| > 0 && c.queue[0] in c.mapping && c.queue[0] != key
    ensures Cache(c.capacity, (c.mapping - {c.queue[0]})[key := value], c.queue[1..] + [key]).Valid()
    ensures |(c.mapping - {c.queue[0]})[key := value]| == c.capacity
  {
    ValidSizes(c);
    var oldest := c.queue[0];
    assert oldest in Elems(c.queue);
    NoDupTail(c.queue);
    NoDupSnoc(c.queue[1..], key);
    var m := (c.mapping - {oldest})[key := value];
    assert m.Keys == c.mapping.Keys - {oldest} + {key};
    assert Elems(c.queue) == {oldest} + Elems(c.queue[1..]);
    assert Elems(c.queue[1..] + [key]) == Elems(c.queue[1..]) + {key};
    assert |m.Keys| == |c.mapping.Keys| - 1 + 1;
  }

  /** `__delitem__`: remove `key` from both structures. A missing key raises
      `KeyError`; the swallowed `ValueError` of `_remove` can only arise in
      a state that breaks the invariant. */
  function DelItem<K, V>(c: Cache<K, V>, key: K): (r: Result<Cache<K, V>>)
    ensures key !in c.mapping <==> r == Raised(KeyError)
    ensures r.Ok? ==>
      && r.value.capacity == c.capacity
      && r.value.mapping.Keys == c.mapping.Keys - {key}
      && (forall k :: k in r.value.mapping ==> r.value.mapping[k] == c.mapping[k])
    ensures r.Ok? && c.Valid() ==> r.value.queue == Erase(c.queue, key) && r.value.Valid()
  {
    if key !in c.mapping then Raised(KeyError)
    else
      var m := c.mapping - {key};
      var rest := match RemoveFirst(c.queue, key)
        case Some(q) => q
        case None => c.queue;
      DelFacts(c, key);
      Ok(Cache(c.capacity, m, rest))
  }

  /** Under the invariant, `_remove` drops the key from the queue and the
      smaller cache keeps the invariant. */
  lemma DelFacts<K, V>(c: Cache<K, V>, key: K)
    requires key in c.mapping
    ensures c.Valid() ==>
      && RemoveFirst(c.queue, key) == Some(Erase(c.queue, key))
      && Cache(c.capacity, c.mapping - {key}, Erase(c.queue, key)).Valid()
  {
    if c.Valid() {
      RemoveFirstIsErase(c.queue, key);
      EraseNoDup(c.queue, key);
      var m := c.mapping - {key};
      assert Elems(Erase(c.queue, key)) == m.Keys;
      assert |m.Keys| <= |c.mapping.Keys|;
    }
  }

  /** Under the invariant the swallowed `ValueError` of `__delitem__` never
      arises: a present key is always found in the queue. */
  lemma DelItemDefensivePathUnreachable<K, V>(c: Cache<K, V>, key: K)
    requires c.Valid() && key in c.mapping
    ensures RemoveFirst(c.queue, key).Some?
  {
    assert key in Elems(c.queue);
  }

  /** `clear`: empty both structures, keeping the capacity. */
  function Clear<K, V>(c: Cache<K, V>): (c': Cache<K, V>)
    ensures c'.capacity == c.capacity
    ensures Len(c') == 0 && Iter(c') == []
    ensures c.Valid() ==> c'.Valid()
  {
    c.(mapping := map[], queue := [])
  }

  /** `get`: like `__getitem__`, but a missing key yields `default`, without
      inserting it and without touching the state. */
  function Get<K, V>(c: Cache<K, V>, key: K, default: V): (r: Result<(V, Cache<K, V>)>)
    ensures key !in c.mapping ==> r == Ok((default, c))
    ensures key in c.mapping ==> r == GetItem(c, key)
    ensures c.Valid() && key in c.mapping ==>
      && r.Ok?
      && r.value.0 == c.mapping[key]
      && r.value.1.capacity == c.capacity
      && r.value.1.mapping == c.mapping
      && r.value.1.queue == Promoted(c.queue, key)
      && r.value.1.Valid()
  {
    match GetItem(c, key)
    case Raised(KeyError) => Ok((default, c))
    case other => other
  }

  /** `setdefault`: the value of a present key, which is left unchanged but,
      because the lookup goes through `__getitem__`, promoted to most recently
      used; otherwise `default` is stored under `key` and returned. */
  function SetDefault<K, V>(c: Cache<K, V>, key: K, default: V): (r: (V, Cache<K, V>))
    requires c.Valid()
    ensures r.1.Valid() && r.1.capacity == c.capacity
    ensures key in r.1.mapping && r.1.mapping[key] == r.0
    ensures |r.1.queue| > 0 && r.1.queue[|r.1.queue| - 1] == key
    ensures forall k :: k in r.1.mapping && k != key ==> k in c.mapping && r.1.mapping[k] == c.mapping[k]
    ensures r.1.queue == Restrict(c.queue, r.1.mapping.Keys - {key}) + [key]
    // a present key keeps its value but is promoted
    ensures key in c.mapping ==>
      r.0 == c.mapping[key] && r.1.mapping == c.mapping && r.1.queue == Promoted(c.queue, key)
    // an absent key is stored exactly as `__setitem__` stores it, eviction included
    ensures key !in c.mapping ==> r == (default, SetItem(c, key, default))
  {
    match GetItem(c, key)
    case Ok(res) =>
      RestrictAll(c.queue, c.mapping.Keys);
      RestrictShrink(c.queue, c.mapping.Keys, key);
      res
    case Raised(e) =>
      assert e == KeyError;
      (default, SetItem(c, key, default))
  }

  /** Every key of the queue has an entry in the mapping; what `items`
      needs for its dict lookups to succeed. */
  predicate QueueKeysMapped<K, V>(c: Cache<K, V>) {
    forall k :: k in c.queue ==> k in c.mapping
  }

  /** `items`: (key, value) pairs for the keys of the queue, reversed so that
      the most recently used entry comes first. */
  function Items<K, V>(c: Cache<K, V>): (r: seq<(K, V)>)
    requires QueueKeysMapped(c)
    ensures |r| == |c.queue|
    ensures forall i :: 0 <= i < |r| ==> r[i].0 in c.mapping && r[i].1 == c.mapping[r[i].0]
    ensures forall i :: 0 <= i < |r| ==> r[i].0 == c.queue[|c.queue| - 1 - i]
  {
    Reverse(Pairs(c.mapping, c.queue))
  }

  /** The list comprehension of `items`: each queue key with its value. */
  function Pairs<K, V>(m: map<K, V>, q: seq<K>): (r: seq<(K, V)>)
    requires forall k :: k in q ==> k in m
    ensures |r| == |q|
    ensures forall i :: 0 <= i < |q| ==> r[i] == (q[i], m[q[i]])
  {
    if q == [] then [] else [(q[0], m[q[0]])] + Pairs(m, q[1..])
  }

  /** `values`: the second components of `items`, in the same order. */
  function Values<K, V>(c: Cache<K, V>): (r: seq<V>)
    requires QueueKeysMapped(c)
    ensures |r| == |Items(c)|
    ensures forall i :: 0 <= i < |r| ==> r[i] == Items(c)[i].1
  {
    var items := Items(c);
    seq(|items|, i requires 0 <= i < |items| => items[i].1)
  }

  /** `__iter__`: the keys, most recently used first. */
  function Iter<K, V>(c: Cache<K, V>): (r: seq<K>)
    ensures |r| == |c.queue|
    ensures forall i :: 0 <= i < |r| ==> r[i] == c.queue[|c.queue| - 1 - i]
  {
    Reverse(c.queue)
  }

  /** `keys`: `list(self)`, the keys in iteration order, which are the keys
      of `items` in the same order. */
  function Keys<K, V>(c: Cache<K, V>): (r: seq<K>)
    ensures r == Iter(c)
    ensures |r| == |c.queue|
    ensures QueueKeysMapped(c) ==>
      |r| == |Items(c)| && forall i :: 0 <= i < |r| ==> r[i] == Items(c)[i].0
  {
    Iter(c)
  }

  /** `__reversed__`: the keys, least recently used first. */
  function Reversed<K, V>(c: Cache<K, V>): (r: seq<K>)
    ensures Reverse(r) == Iter(c)
    ensures Reverse(Iter(c)) == r
  {
    ReverseReverse(c.queue);
    c.queue
  }

  /** Under the invariant `items` lists every entry of the mapping exactly
      once: a key with its value, no key twice. */
  lemma ItemsAreEntries<K, V>(c: Cache<K, V>)
    requires c.Valid()
    ensures forall k :: k in c.mapping ==> (k, c.mapping[k]) in Items(c)
    ensures NoDup(Keys(c))
    ensures Elems(Keys(c)) == c.mapping.Keys
  {
    var items := Items(c);
    var q := c.queue;
    forall k | k in c.mapping
      ensures (k, c.mapping[k]) in items
    {
      assert k in Elems(q);
      var j :| 0 <= j < |q| && q[j] == k;
      assert items[|q| - 1 - j] == (k, c.mapping[k]);
    }
    ReverseNoDup(q);
    ReverseElems(q);
  }

  /** After a store, the stored entry heads `items` and ends `__reversed__`. */
  lemma SetItemMostRecent<K, V>(c: Cache<K, V>, key: K, value: V)
    requires c.Valid()
    ensures var c' := SetItem(c, key, value);
      && |Items(c')| > 0 && Items(c')[0] == (key, value)
      && Keys(c')[0] == key
      && Reversed(c')[|Reversed(c')| - 1] == key
  {
  }

  /** After a successful lookup, the key heads `keys` and ends `__reversed__`,
      and the order of the other keys is unchanged. */
  lemma GetItemMostRecent<K, V>(c: Cache<K, V>, key: K)
    requires c.Valid() && key in c.mapping
    ensures var c' := GetItem(c, key).value.1;
      && Keys(c')[0] == key
      && Reversed(c') == Erase(Reversed(c), key) + [key]
  {
  }

  /** A worked example with capacity 2: two stores list the newer key
      first; a lookup of the older key promotes it; a store of a third key
      evicts the least recently used one; a deletion succeeds once and raises
      `KeyError` the second time; `get` on an empty cache returns the default
      without inserting it. */
  lemma CapacityTwoScenario()
    ensures var c0 := Init<string, int>(2);
      var c1 := SetItem(SetItem(c0, "a", 1), "b", 2);
      && Items(c1) == [("b", 2), ("a", 1)]
      && GetItem(c1, "a").Ok?
      && GetItem(c1, "a").value.0 == 1
      && var c2 := GetItem(c1, "a").value.1;
      && Items(c2) == [("a", 1), ("b", 2)]
      && c2.Valid()
      && var c3 := SetItem(c2, "c", 3);
      && Items(c3) == [("c", 3), ("a", 1)]
      && Len(c3) == 2 && !Contains(c3, "b")
      && DelItem(c3, "c").Ok?
      && DelItem(DelItem(c3, "c").value, "c") == Raised(KeyError)
      && Get(c0, "z", 0) == Ok((0, c0))
  {
    var c0 := Init<string, int>(2);
    var c1 := SetItem(SetItem(c0, "a", 1), "b", 2);
    ScenarioStores(c1);
    ScenarioLookup(c1);
    var c2 := GetItem(c1, "a").value.1;
    ScenarioEvict(c2);
    var c3 := SetItem(c2, "c", 3);
    ScenarioDelete(c3);
  }

  lemma ScenarioStores(c1: Cache<string, int>)
    requires c1 == SetItem(SetItem(Init<string, int>(2), "a", 1), "b", 2)
    ensures c1 == Cache(2, map["a" := 1, "b" := 2], ["a", "b"])
    ensures Items(c1) == [("b", 2), ("a", 1)]
  {
    ItemsOfTwo(2, map["a" := 1, "b" := 2], "a", "b");
    var ca := SetItem(Init<string, int>(2), "a", 1);
    assert ca.queue == ["a"];
    assert c1.queue == ["a", "b"];
    assert c1.mapping == map["a" := 1, "b" := 2];
  }

  lemma ScenarioLookup(c1: Cache<string, int>)
    requires c1 == Cache(2, map["a" := 1, "b" := 2], ["a", "b"])
    ensures GetItem(c1, "a") == Ok((1, Cache(2, map["a" := 1, "b" := 2], ["b", "a"])))
    ensures Items(Cache(2, map["a" := 1, "b" := 2], ["b", "a"])) == [("a", 1), ("b", 2)]
  {
    ItemsOfTwo(2, map["a" := 1, "b" := 2], "b", "a");
    assert c1.Valid() by {
      assert Elems(c1.queue) == {"a", "b"};
    }
    assert "a" != "b";
    assert c1.queue[1] != "a";
    assert Erase(c1.queue, "a") == ["b"];
    assert Promoted(c1.queue, "a") == ["b", "a"];
  }

  lemma ScenarioEvict(c2: Cache<string, int>)
    requires c2 == Cache(2, map["a" := 1, "b" := 2], ["b", "a"])
    ensures c2.Valid()
    ensures c2.Valid() && SetItem(c2, "c", 3) == Cache(2, map["a" := 1, "c" := 3], ["a", "c"])
    ensures Items(Cache(2, map["a" := 1, "c" := 3], ["a", "c"])) == [("c", 3), ("a", 1)]
  {
    ScenarioFull(c2);
    ScenarioEvictStep(c2);
    ItemsOfTwo(2, map["a" := 1, "c" := 3], "a", "c");
  }

  lemma ScenarioFull(c2: Cache<string, int>)
    requires c2 == Cache(2, map["a" := 1, "b" := 2], ["b", "a"])
    ensures c2.Valid() && |c2.mapping| == c2.capacity
  {
    assert "a" != "b";
    assert c2.mapping.Keys == {"a", "b"};
    assert Elems(c2.queue) == {"a", "b"};
  }

  lemma ScenarioEvictStep(c2: Cache<string, int>)
    requires c2 == Cache(2, map["a" := 1, "b" := 2], ["b", "a"])
    requires c2.Valid() && |c2.mapping| == c2.capacity
    ensures SetItem(c2, "c", 3) == Cache(2, map["a" := 1, "c" := 3], ["a", "c"])
  {
    assert "c" != "a" && "c" != "b" && "a" != "b";
    var c := SetItem(c2, "c", 3);
    assert c.mapping.Keys == {"a", "c"};
    ScenarioEvictQueue(c2, c);
    assert c.mapping["a"] == 1 && c.mapping["c"] == 3;
    assert c.mapping == map["a" := 1, "c" := 3];
  }

  lemma ItemsOfTwo<K, V>(capacity: int, m: map<K, V>, older: K, newer: K)
    requires older in m && newer in m
    ensures Items(Cache(capacity, m, [older, newer])) == [(newer, m[newer]), (older, m[older])]
  {
    var items := Items(Cache(capacity, m, [older, newer]));
    assert items[0] == (newer, m[newer]) && items[1] == (older, m[older]);
  }

  lemma ScenarioEvictQueue(c0: Cache<string, int>, c: Cache<string, int>)
    requires c0.queue == ["b", "a"]
    requires c.mapping.Keys == {"a", "c"}
    requires c.queue == Restrict(c0.queue, c.mapping.Keys - {"c"}) + ["c"]
    ensures c.queue == ["a", "c"]
  {
    assert "c" != "a" && "c" != "b" && "a" != "b";
    assert c.mapping.Keys - {"c"} == {"a"};
    assert Restrict(c0.queue, {"a"}) == ["a"];
  }

  lemma ScenarioDelete(c3: Cache<string, int>)
    requires c3 == Cache(2, map["a" := 1, "c" := 3], ["a", "c"])
    ensures Len(c3) == 2 && !Contains(c3, "b")
    ensures DelItem(c3, "c") == Ok(Cache(2, map["a" := 1], ["a"]))
    ensures DelItem(Cache(2, map["a" := 1], ["a"]), "c") == Raised(KeyError)
    ensures Get(Init<string, int>(2), "z", 0) == Ok((0, Init<string, int>(2)))
  {
    assert "c" != "a" && "b" != "a" && "b" != "c";
    assert c3.Valid() by {
      assert Elems(c3.queue) == {"a", "c"};
    }
    assert c3.mapping.Keys == {"a", "c"};
    assert Erase(c3.queue, "c") == ["a"];
    assert c3.mapping - {"c"} == map["a" := 1];
  }
}
