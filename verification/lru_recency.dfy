/** What makes the cache least-recently-used: over any sequence of operations
    applied to a fresh cache, the recency queue lists the present keys in the
    order of their last touch by a lookup or a store, so the key evicted from
    the front is always the present key touched longest ago. */
module LruRecency {
  import opened Errors
  import opened Deques
  import L = LruCache

  /** One call on the cache; a raised exception is caught by the caller and
      leaves the cache as it was. */
  datatype Op<K, V> =
    | SetOp(key: K, value: V)          // cache[key] = value
    | GetOp(key: K)                    // cache[key]
    | GetOrOp(key: K, default: V)      // cache.get(key, default)
    | SetDefaultOp(key: K, default: V) // cache.setdefault(key, default)
    | DelOp(key: K)                    // del cache[key]
    | ClearOp                          // cache.clear()

  /** The cache after one call. */
  function Apply<K, V>(c: L.Cache<K, V>, op: Op<K, V>): (c': L.Cache<K, V>)
    requires c.Valid()
    ensures c'.Valid() && c'.capacity == c.capacity
  {
    match op
    case SetOp(k, v) => L.SetItem(c, k, v)
    case GetOp(k) =>
      (match L.GetItem(c, k)
       case Ok(res) => res.1
       case Raised(_) => c)
    case GetOrOp(k, d) =>
      (match L.Get(c, k, d)
       case Ok(res) => res.1
       case Raised(_) => c)
    case SetDefaultOp(k, d) => L.SetDefault(c, k, d).1
    case DelOp(k) =>
      (match L.DelItem(c, k)
       case Ok(c') => c'
       case Raised(_) => c)
    case ClearOp => L.Clear(c)
  }

  /** The cache after a sequence of calls, applied first to last. */
  function Run<K, V>(c: L.Cache<K, V>, ops: seq<Op<K, V>>): (c': L.Cache<K, V>)
    requires c.Valid()
    ensures c'.Valid() && c'.capacity == c.capacity
  {
    if ops == [] then c
    else Apply(Run(c, ops[..|ops| - 1]), ops[|ops| - 1])
  }

  /** The key a call touches: every lookup or store names one. */
  function TouchedKey<K, V>(op: Op<K, V>): Option<K> {
    match op
    case SetOp(k, _) => Some(k)
    case GetOp(k) => Some(k)
    case GetOrOp(k, _) => Some(k)
    case SetDefaultOp(k, _) => Some(k)
    case DelOp(_) => None
    case ClearOp => None
  }

  /** The touch history of a sequence of calls, oldest first. */
  function Touched<K, V>(ops: seq<Op<K, V>>): seq<K> {
    if ops == [] then []
    else
      var h := Touched(ops[..|ops| - 1]);
      match TouchedKey(ops[|ops| - 1])
      case Some(k) => h + [k]
      case None => h
  }

  /** The distinct keys of a touch history, each placed by its last touch:
      the order an unbounded LRU list would have. */
  function RecencyOrder<K(==)>(h: seq<K>): (r: seq<K>)
    ensures NoDup(r)
    ensures forall x :: x in r ==> x in h
    ensures forall x :: x in h ==> x in r
  {
    if h == [] then []
    else
      var prev := RecencyOrder(h[..|h| - 1]);
      var k := h[|h| - 1];
      EraseNoDup(prev, k);
      NoDupSnoc(Erase(prev, k), k);
      assert forall x :: x in h ==> x in h[..|h| - 1] || x == k;
      L.Promoted(prev, k)
  }

  /** Position of the last occurrence of `x` in `h`. */
  function LastIndex<K(==)>(h: seq<K>, x: K): (i: nat)
    requires x in h
    ensures i < |h| && h[i] == x
    ensures x !in h[i + 1..]
  {
    if h[|h| - 1] == x then |h| - 1
    else
      assert x in h[..|h| - 1];
      var i := LastIndex(h[..|h| - 1], x);
      assert h[i + 1..] == h[..|h| - 1][i + 1..] + [h[|h| - 1]];
      i
  }

  /** `s` lists keys of the history `h` by increasing time of last touch. */
  ghost predicate ByLastTouch<K>(s: seq<K>, h: seq<K>) {
    && (forall i :: 0 <= i < |s| ==> s[i] in h)
    && (forall i, j :: 0 <= i < j < |s| && s[i] in h && s[j] in h ==>
          LastIndex(h, s[i]) < LastIndex(h, s[j]))
  }

  lemma ByLastTouchTail<K>(s: seq<K>, h: seq<K>)
    requires ByLastTouch(s, h) && s != []
    ensures ByLastTouch(s[1..], h)
    ensures forall y :: y in s[1..] ==> LastIndex(h, s[0]) < LastIndex(h, y)
  {
    assert forall i :: 0 <= i < |s| - 1 ==> s[1..][i] == s[i + 1];
    forall y | y in s[1..]
      ensures LastIndex(h, s[0]) < LastIndex(h, y)
    {
      var m :| 0 <= m < |s[1..]| && s[1..][m] == y;
      assert s[m + 1] == y;
    }
  }

  lemma ByLastTouchCons<K>(x: K, s: seq<K>, h: seq<K>)
    requires ByLastTouch(s, h) && x in h
    requires forall y :: y in s ==> LastIndex(h, x) < LastIndex(h, y)
    ensures ByLastTouch([x] + s, h)
  {
    var t := [x] + s;
    forall i, j | 0 <= i < j < |t| && t[i] in h && t[j] in h
      ensures LastIndex(h, t[i]) < LastIndex(h, t[j])
    {
      assert t[j] == s[j - 1];
      if i > 0 {
        assert t[i] == s[i - 1];
      }
    }
  }

  /** Filtering out one key keeps the order by last touch. */
  lemma {:induction false} EraseByLastTouch<K>(s: seq<K>, h: seq<K>, k: K)
    requires ByLastTouch(s, h)
    ensures ByLastTouch(Erase(s, k), h)
  {
    if s != [] {
      ByLastTouchTail(s, h);
      EraseByLastTouch(s[1..], h, k);
      if s[0] != k {
        ByLastTouchCons(s[0], Erase(s[1..], k), h);
      }
    }
  }

  /** Restricting to a set of keys keeps the order by last touch. */
  lemma {:induction false} RestrictByLastTouch<K>(s: seq<K>, h: seq<K>, keep: set<K>)
    requires ByLastTouch(s, h)
    ensures ByLastTouch(Restrict(s, keep), h)
  {
    if s != [] {
      ByLastTouchTail(s, h);
      RestrictByLastTouch(s[1..], h, keep);
      if s[0] in keep {
        ByLastTouchCons(s[0], Restrict(s[1..], keep), h);
      }
    }
  }

  /** A later touch of another key leaves the last touch of `x` where it was. */
  lemma LastIndexSnoc<K>(h: seq<K>, k: K, x: K)
    requires x in h && x != k
    ensures LastIndex(h + [k], x) == LastIndex(h, x)
  {
    assert (h + [k])[..|h|] == h;
  }

  /** The order an unbounded LRU list keeps is the order of last touch. */
  lemma {:induction false} RecencyOrderByLastTouch<K>(h: seq<K>)
    ensures ByLastTouch(RecencyOrder(h), h)
  {
    if h != [] {
      var p := h[..|h| - 1];
      var k := h[|h| - 1];
      assert h == p + [k];
      var prev := RecencyOrder(p);
      RecencyOrderByLastTouch(p);
      EraseByLastTouch(prev, p, k);
      var e := Erase(prev, k);
      var r := e + [k];
      forall x | x in e
        ensures LastIndex(h, x) == LastIndex(p, x) < |p|
      {
        LastIndexSnoc(p, k, x);
      }
      assert LastIndex(h, k) == |p|;
      forall i, j | 0 <= i < j < |r| && r[i] in h && r[j] in h
        ensures LastIndex(h, r[i]) < LastIndex(h, r[j])
      {
        assert r[i] == e[i];
        if j < |e| {
          assert r[j] == e[j];
        }
      }
    }
  }

  /** A call that moves `k` to the back and keeps the other survivors in
      their order follows the unbounded list promoted at `k`. */
  lemma PromoteStep<K, V>(lst: seq<K>, c: L.Cache<K, V>, c': L.Cache<K, V>, k: K)
    requires c.queue == Restrict(lst, c.mapping.Keys)
    requires c'.queue == Restrict(c.queue, c'.mapping.Keys - {k}) + [k]
    requires k in c'.mapping
    requires c'.mapping.Keys - {k} <= c.mapping.Keys
    ensures c'.queue == Restrict(L.Promoted(lst, k), c'.mapping.Keys)
  {
    var keys' := c'.mapping.Keys;
    RestrictAppend(Erase(lst, k), [k], keys');
    assert Restrict([k], keys') == [k];
    RestrictCongruent(Erase(lst, k), keys', keys' - {k});
    RestrictErase(lst, k, keys' - {k});
    EraseAbsent(Restrict(lst, keys' - {k}), k);
    RestrictRestrict(lst, c.mapping.Keys, keys' - {k});
    assert c.mapping.Keys * (keys' - {k}) == keys' - {k};
  }

  /** A lookup that finds `k` present promotes it. */
  lemma LookupStep<K, V>(lst: seq<K>, c: L.Cache<K, V>, k: K)
    requires c.Valid() && k in c.mapping
    requires c.queue == Restrict(lst, c.mapping.Keys)
    ensures L.Promoted(c.queue, k) == Restrict(L.Promoted(lst, k), c.mapping.Keys)
  {
    RestrictAll(c.queue, c.mapping.Keys);
    RestrictShrink(c.queue, c.mapping.Keys, k);
    PromoteStep(lst, c, c.(queue := L.Promoted(c.queue, k)), k);
  }

  /** A lookup of an absent key leaves the queue as the promoted list shows it. */
  lemma MissStep<K, V>(lst: seq<K>, c: L.Cache<K, V>, k: K)
    requires c.Valid() && k !in c.mapping
    requires c.queue == Restrict(lst, c.mapping.Keys)
    ensures c.queue == Restrict(L.Promoted(lst, k), c.mapping.Keys)
  {
    RestrictAppend(Erase(lst, k), [k], c.mapping.Keys);
    assert Restrict([k], c.mapping.Keys) == [];
    RestrictErase(lst, k, c.mapping.Keys);
    assert k !in c.queue;
    EraseAbsent(c.queue, k);
  }

  /** The unbounded LRU list after one call. */
  function Touch<K(==), V>(lst: seq<K>, op: Op<K, V>): seq<K> {
    match TouchedKey(op)
    case Some(k) => L.Promoted(lst, k)
    case None => lst
  }

  lemma GetStep<K, V>(lst: seq<K>, c: L.Cache<K, V>, k: K)
    requires c.Valid()
    requires c.queue == Restrict(lst, c.mapping.Keys)
    ensures var c' := Apply(c, GetOp(k));
      c'.queue == Restrict(L.Promoted(lst, k), c'.mapping.Keys)
  {
    if k in c.mapping { LookupStep(lst, c, k); } else { MissStep(lst, c, k); }
  }

  lemma GetOrStep<K, V>(lst: seq<K>, c: L.Cache<K, V>, k: K, d: V)
    requires c.Valid()
    requires c.queue == Restrict(lst, c.mapping.Keys)
    ensures var c' := Apply(c, GetOrOp(k, d));
      c'.queue == Restrict(L.Promoted(lst, k), c'.mapping.Keys)
  {
    if k in c.mapping { LookupStep(lst, c, k); } else { MissStep(lst, c, k); }
  }

  lemma DelStep<K, V>(lst: seq<K>, c: L.Cache<K, V>, k: K)
    requires c.Valid()
    requires c.queue == Restrict(lst, c.mapping.Keys)
    ensures var c' := Apply(c, DelOp(k));
      c'.queue == Restrict(lst, c'.mapping.Keys)
  {
    var r := L.DelItem(c, k);
    if k in c.mapping {
      var c' := r.value;
      assert Apply(c, DelOp(k)) == c';
      RestrictShrink(lst, c.mapping.Keys, k);
      assert c'.mapping.Keys == c.mapping.Keys - {k};
      assert c'.queue == Erase(c.queue, k);
    } else {
      assert Apply(c, DelOp(k)) == c;
    }
  }

  lemma SetStep<K, V>(lst: seq<K>, c: L.Cache<K, V>, k: K, v: V)
    requires c.Valid()
    requires c.queue == Restrict(lst, c.mapping.Keys)
    ensures var c' := Apply(c, SetOp(k, v));
      c'.queue == Restrict(L.Promoted(lst, k), c'.mapping.Keys)
  {
    var c' := L.SetItem(c, k, v);
    assert Apply(c, SetOp(k, v)) == c';
    assert c'.mapping.Keys - {k} <= c.mapping.Keys;
    PromoteStep(lst, c, c', k);
  }

  lemma SetDefaultStep<K, V>(lst: seq<K>, c: L.Cache<K, V>, k: K, d: V)
    requires c.Valid()
    requires c.queue == Restrict(lst, c.mapping.Keys)
    ensures var c' := Apply(c, SetDefaultOp(k, d));
      c'.queue == Restrict(L.Promoted(lst, k), c'.mapping.Keys)
  {
    var c' := L.SetDefault(c, k, d).1;
    assert Apply(c, SetDefaultOp(k, d)) == c';
    assert c'.mapping.Keys - {k} <= c.mapping.Keys;
    PromoteStep(lst, c, c', k);
  }

  lemma ClearStep<K, V>(lst: seq<K>, c: L.Cache<K, V>)
    requires c.Valid()
    ensures var c' := Apply(c, ClearOp);
      c'.queue == Restrict(lst, c'.mapping.Keys)
  {
    assert Apply(c, ClearOp).mapping.Keys == {};
    RestrictEmpty(lst);
  }

  /** One call keeps the queue equal to the unbounded list, with the call's
      touch applied, restricted to the keys present afterwards. */
  lemma ApplyStep<K, V>(lst: seq<K>, c: L.Cache<K, V>, op: Op<K, V>)
    requires c.Valid()
    requires c.queue == Restrict(lst, c.mapping.Keys)
    ensures Apply(c, op).queue == Restrict(Touch(lst, op), Apply(c, op).mapping.Keys)
  {
    match op
    case SetOp(k, v) => SetStep(lst, c, k, v);
    case GetOp(k) => GetStep(lst, c, k);
    case GetOrOp(k, d) => GetOrStep(lst, c, k, d);
    case SetDefaultOp(k, d) => SetDefaultStep(lst, c, k, d);
    case DelOp(k) => DelStep(lst, c, k);
    case ClearOp => ClearStep(lst, c);
  }

  /** From a fresh cache, the queue is always the unbounded LRU list of the
      touch history restricted to the keys still present: evictions and
      deletions never disturb the relative recency of the survivors. */
  lemma {:induction false} RunFollowsRecencyOrder<K, V>(capacity: int, ops: seq<Op<K, V>>)
    requires capacity >= 1
    ensures var c := Run(L.Init<K, V>(capacity), ops);
      c.queue == Restrict(RecencyOrder(Touched(ops)), c.mapping.Keys)
  {
    var c0 := L.Init<K, V>(capacity);
    if ops == [] {
      assert Restrict<K>([], c0.mapping.Keys) == [];
    } else {
      var p := ops[..|ops| - 1];
      var op := ops[|ops| - 1];
      RunFollowsRecencyOrder(capacity, p);
      var h := Touched(p);
      ApplyStep(RecencyOrder(h), Run(c0, p), op);
      match TouchedKey(op)
      case Some(k) =>
        assert (h + [k])[..|h|] == h;
      case None =>
    }
  }

  /** The LRU guarantee: from a fresh cache, the queue orders the present keys
      by their last touch, so its front, the next key to be evicted, is the
      present key touched longest ago. */
  lemma QueueOrderedByLastTouch<K, V>(capacity: int, ops: seq<Op<K, V>>)
    requires capacity >= 1
    ensures var c := Run(L.Init<K, V>(capacity), ops);
      && ByLastTouch(c.queue, Touched(ops))
      && forall k :: k in c.mapping && k != c.queue[0] ==>
           LastIndex(Touched(ops), c.queue[0]) < LastIndex(Touched(ops), k)
  {
    var c := Run(L.Init<K, V>(capacity), ops);
    var h := Touched(ops);
    RunFollowsRecencyOrder(capacity, ops);
    RecencyOrderByLastTouch(h);
    RestrictByLastTouch(RecencyOrder(h), h, c.mapping.Keys);
    forall k | k in c.mapping && k != c.queue[0]
      ensures LastIndex(h, c.queue[0]) < LastIndex(h, k)
    {
      assert k in Elems(c.queue);
      var j :| 0 <= j < |c.queue| && c.queue[j] == k;
    }
  }
}
