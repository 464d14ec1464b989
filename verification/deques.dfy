/** The sequence operations the cache performs on its recency queue, a
    `collections.deque` in the source: `remove` (first occurrence, raising
    `ValueError` when absent), plus two filters used as independent
    reference definitions when stating what the cache does to its queue. */
module Deques {
  import opened Errors

  /** No element occurs twice. */
  predicate NoDup<T(==)>(s: seq<T>) {
    forall i, j :: 0 <= i < j < |s| ==> s[i] != s[j]
  }

  /** The set of elements of a sequence. */
  function Elems<T>(s: seq<T>): set<T> {
    set x | x in s
  }

  /** Position of the first occurrence of `x` in `s`. */
  function IndexOf<T(==)>(s: seq<T>, x: T): (i: nat)
    requires x in s
    ensures i < |s| && s[i] == x
    ensures x !in s[..i]
  {
    if s[0] == x then 0
    else
      var j := IndexOf(s[1..], x);
      assert s[..j + 1] == [s[0]] + s[1..][..j];
      1 + j
  }

  /** `deque.remove(x)`: drop the first occurrence of `x`; `None` stands for
      the `ValueError` raised when `x` does not occur. */
  function RemoveFirst<T(==)>(s: seq<T>, x: T): (r: Option<seq<T>>)
    ensures r.None? <==> x !in s
    ensures r.Some? ==> |r.value| == |s| - 1
    ensures r.Some? ==> multiset(r.value) == multiset(s) - multiset{x}
    // the first occurrence is the one removed; the rest keep their order
    ensures r.Some? ==> exists i :: 0 <= i < |s| && s[i] == x && x !in s[..i] && r.value == s[..i] + s[i + 1..]
  {
    if x in s then
      var i := IndexOf(s, x);
      assert s == s[..i] + [x] + s[i + 1..];
      Some(s[..i] + s[i + 1..])
    else None
  }

  /** Every occurrence of `x` filtered out, the rest in their original order. */
  function Erase<T(==)>(s: seq<T>, x: T): (r: seq<T>)
    ensures x !in r
    ensures forall y :: y in r ==> y in s && y != x
    ensures forall y :: y in s && y != x ==> y in r
    ensures |r| <= |s|
  {
    if s == [] then []
    else if s[0] == x then Erase(s[1..], x)
    else [s[0]] + Erase(s[1..], x)
  }

  /** Only the elements that belong to `keep`, in their original order. */
  function Restrict<T(==)>(s: seq<T>, keep: set<T>): (r: seq<T>)
    ensures forall y :: y in r ==> y in s && y in keep
    ensures forall y :: y in s && y in keep ==> y in r
    ensures |r| <= |s|
  {
    if s == [] then []
    else if s[0] in keep then [s[0]] + Restrict(s[1..], keep)
    else Restrict(s[1..], keep)
  }

  lemma NoDupTail<T>(s: seq<T>)
    requires NoDup(s) && s != []
    ensures NoDup(s[1..]) && s[0] !in s[1..]
  {
  }

  lemma {:induction false} NoDupCons<T>(x: T, s: seq<T>)
    requires NoDup(s) && x !in s
    ensures NoDup([x] + s)
  {
    var t := [x] + s;
    forall i, j | 0 <= i < j < |t|
      ensures t[i] != t[j]
    {
      if i == 0 {
        assert t[j] == s[j - 1];
      } else {
        assert t[i] == s[i - 1] && t[j] == s[j - 1];
      }
    }
  }

  lemma {:induction false} NoDupSnoc<T>(s: seq<T>, x: T)
    requires NoDup(s) && x !in s
    ensures NoDup(s + [x])
  {
    var t := s + [x];
    forall i, j | 0 <= i < j < |t|
      ensures t[i] != t[j]
    {
      if j == |s| {
        assert t[i] == s[i];
      } else {
        assert t[i] == s[i] && t[j] == s[j];
      }
    }
  }

  /** A duplicate-free sequence has as many elements as its element set. */
  lemma {:induction false} NoDupCard<T>(s: seq<T>)
    requires NoDup(s)
    ensures |Elems(s)| == |s|
  {
    if s != [] {
      NoDupTail(s);
      NoDupCard(s[1..]);
      assert Elems(s) == {s[0]} + Elems(s[1..]);
    }
  }

  /** Filtering keeps a duplicate-free sequence duplicate-free. */
  lemma {:induction false} EraseNoDup<T>(s: seq<T>, x: T)
    requires NoDup(s)
    ensures NoDup(Erase(s, x))
  {
    if s != [] {
      NoDupTail(s);
      EraseNoDup(s[1..], x);
      if s[0] != x {
        NoDupCons(s[0], Erase(s[1..], x));
      }
    }
  }

  lemma {:induction false} RestrictNoDup<T>(s: seq<T>, keep: set<T>)
    requires NoDup(s)
    ensures NoDup(Restrict(s, keep))
  {
    if s != [] {
      NoDupTail(s);
      RestrictNoDup(s[1..], keep);
      if s[0] in keep {
        NoDupCons(s[0], Restrict(s[1..], keep));
      }
    }
  }

  /** Erasing an element that does not occur changes nothing. */
  lemma {:induction false} EraseAbsent<T>(s: seq<T>, x: T)
    requires x !in s
    ensures Erase(s, x) == s
  {
    if s != [] {
      assert x !in s[1..];
      EraseAbsent(s[1..], x);
    }
  }

  /** On a duplicate-free sequence, `deque.remove` is the filter `Erase`:
      the other elements keep their relative order. */
  lemma {:induction false} RemoveFirstIsErase<T>(s: seq<T>, x: T)
    requires NoDup(s) && x in s
    ensures RemoveFirst(s, x) == Some(Erase(s, x))
  {
    NoDupTail(s);
    var i := IndexOf(s, x);
    assert RemoveFirst(s, x) == Some(s[..i] + s[i + 1..]);
    if s[0] == x {
      EraseAbsent(s[1..], x);
      assert s[..0] + s[1..] == s[1..];
    } else {
      RemoveFirstIsErase(s[1..], x);
      var j := IndexOf(s[1..], x);
      assert i == j + 1;
      assert s[1..][..j] + s[1..][j + 1..] == Erase(s[1..], x);
      assert s[..j + 1] + s[j + 2..] == [s[0]] + (s[1..][..j] + s[1..][j + 1..]);
    }
  }

  /** Erasing the front of a duplicate-free sequence drops exactly the front. */
  lemma EraseFront<T>(s: seq<T>)
    requires NoDup(s) && s != []
    ensures Erase(s, s[0]) == s[1..]
  {
    NoDupTail(s);
    EraseAbsent(s[1..], s[0]);
  }

  /** Erasing the last element of a duplicate-free sequence and appending it
      again gives the sequence back. */
  lemma {:induction false} EraseLast<T>(s: seq<T>)
    requires NoDup(s) && s != []
    ensures Erase(s, s[|s| - 1]) + [s[|s| - 1]] == s
  {
    NoDupTail(s);
    var x := s[|s| - 1];
    if |s| == 1 {
      assert Erase(s, x) == [];
    } else {
      assert s[1..][|s[1..]| - 1] == x;
      EraseLast(s[1..]);
      assert s[0] != x by {
        assert s[1..][|s| - 2] == x;
      }
      assert [s[0]] + s[1..] == s;
    }
  }

  lemma {:induction false} RestrictAppend<T>(a: seq<T>, b: seq<T>, keep: set<T>)
    ensures Restrict(a + b, keep) == Restrict(a, keep) + Restrict(b, keep)
  {
    if a != [] {
      assert (a + b)[1..] == a[1..] + b;
      RestrictAppend(a[1..], b, keep);
    } else {
      assert a + b == b;
    }
  }

  lemma {:induction false} RestrictErase<T>(s: seq<T>, x: T, keep: set<T>)
    ensures Restrict(Erase(s, x), keep) == Erase(Restrict(s, keep), x)
  {
    if s != [] {
      RestrictErase(s[1..], x, keep);
      if s[0] != x && s[0] in keep {
        assert ([s[0]] + Erase(s[1..], x))[1..] == Erase(s[1..], x);
        assert ([s[0]] + Restrict(s[1..], keep))[1..] == Restrict(s[1..], keep);
      } else if s[0] != x {
        assert ([s[0]] + Erase(s[1..], x))[1..] == Erase(s[1..], x);
      } else if s[0] in keep {
        assert ([s[0]] + Restrict(s[1..], keep))[1..] == Restrict(s[1..], keep);
      }
    }
  }

  /** A sequence whose elements all belong to `keep` is unchanged by
      restricting to it. */
  lemma {:induction false} RestrictAll<T>(s: seq<T>, keep: set<T>)
    requires Elems(s) <= keep
    ensures Restrict(s, keep) == s
  {
    if s != [] {
      assert Elems(s[1..]) <= Elems(s);
      RestrictAll(s[1..], keep);
    }
  }

  /** Restricting to nothing leaves nothing. */
  lemma RestrictEmpty<T>(s: seq<T>)
    ensures Restrict(s, {}) == []
  {
    if Restrict(s, {}) != [] {
      assert Restrict(s, {})[0] in Restrict(s, {});
    }
  }

  /** Restricting twice is restricting to the intersection. */
  lemma {:induction false} RestrictRestrict<T>(s: seq<T>, a: set<T>, b: set<T>)
    ensures Restrict(Restrict(s, a), b) == Restrict(s, a * b)
  {
    if s != [] {
      RestrictRestrict(s[1..], a, b);
      if s[0] in a {
        assert ([s[0]] + Restrict(s[1..], a))[1..] == Restrict(s[1..], a);
      }
    }
  }

  /** Restricting to one key fewer erases that key. */
  lemma {:induction false} RestrictShrink<T>(s: seq<T>, keep: set<T>, x: T)
    ensures Restrict(s, keep - {x}) == Erase(Restrict(s, keep), x)
  {
    if s != [] {
      RestrictShrink(s[1..], keep, x);
      if s[0] in keep {
        assert ([s[0]] + Restrict(s[1..], keep))[1..] == Restrict(s[1..], keep);
      }
    }
  }

  /** Restriction only looks at the elements that occur. */
  lemma {:induction false} RestrictCongruent<T>(s: seq<T>, keep: set<T>, keep': set<T>)
    requires forall y :: y in s ==> (y in keep <==> y in keep')
    ensures Restrict(s, keep) == Restrict(s, keep')
  {
    if s != [] {
      RestrictCongruent(s[1..], keep, keep');
    }
  }

  /** The elements from last to first, as Python's `reversed`. */
  function Reverse<T>(s: seq<T>): (r: seq<T>)
    ensures |r| == |s|
    ensures forall i :: 0 <= i < |s| ==> r[i] == s[|s| - 1 - i]
  {
    if s == [] then [] else Reverse(s[1..]) + [s[0]]
  }

  /** Reversing twice gives the sequence back. */
  lemma ReverseReverse<T>(s: seq<T>)
    ensures Reverse(Reverse(s)) == s
  {
  }

  /** Reversal keeps the same elements. */
  lemma ReverseElems<T>(s: seq<T>)
    ensures Elems(Reverse(s)) == Elems(s)
  {
    forall x | x in s
      ensures x in Reverse(s)
    {
      var i :| 0 <= i < |s| && s[i] == x;
      assert Reverse(s)[|s| - 1 - i] == x;
    }
  }

  lemma ReverseNoDup<T>(s: seq<T>)
    requires NoDup(s)
    ensures NoDup(Reverse(s))
  {
  }
}
