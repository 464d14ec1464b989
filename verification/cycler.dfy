/** `Cycler` and `Joiner` from src/jinja2/utils.py: the two small template
    helpers with state. A cycler yields its items in order and starts over
    after the last one; a joiner yields the empty string on its first call
    and its separator on every later call. */
module Cyclers {
  import opened Errors

  datatype Cycler<T> = Cycler(items: seq<T>, pos: nat) {

    /** At least one item, and the position indexes one of them. */
    predicate Valid() {
      |items| > 0 && pos < |items|
    }
  }

  /** `Cycler(*items)`: raises `RuntimeError` when no item is given and
      otherwise starts at the first item. */
  function NewCycler<T>(items: seq<T>): (r: Result<Cycler<T>>)
    ensures |items| == 0 <==> r == Raised(RuntimeError)
    ensures r.Ok? ==> r.value.Valid() && r.value.items == items && Current(r.value) == items[0]
    ensures r.Ok? ==> r.value.pos == 0
  {
    if |items| == 0 then Raised(RuntimeError) else Ok(Cycler(items, 0))
  }

  /** `reset`: back to the state the cycler was created in. */
  function Reset<T>(c: Cycler<T>): (r: Cycler<T>)
    ensures |c.items| > 0 ==> r.Valid() && NewCycler(c.items) == Ok(r)
  {
    c.(pos := 0)
  }

  /** `current`: the item at the position, always one of the items. */
  function Current<T>(c: Cycler<T>): (x: T)
    requires c.Valid()
    ensures x in c.items
  {
    c.items[c.pos]
  }

  /** `next`: the current item, with the position advanced by one and wrapped
      back to the first item after the last. */
  function Next<T>(c: Cycler<T>): (r: (T, Cycler<T>))
    requires c.Valid()
    ensures r.0 == c.items[c.pos]
    ensures r.1.Valid() && r.1.items == c.items
    ensures c.pos + 1 < |c.items| ==> r.1.pos == c.pos + 1
    ensures c.pos + 1 == |c.items| ==> r.1.pos == 0
  {
    var rv := Current(c);
    (rv, c.(pos := (c.pos + 1) % |c.items|))
  }

  /** `current` is what the next call of `next` returns. */
  lemma CurrentIsNext<T>(c: Cycler<T>)
    requires c.Valid()
    ensures Current(c) == Next(c).0
    ensures Current(c) in c.items
  {
  }

  /** The state after `n` calls of `next`. */
  function Advance<T>(c: Cycler<T>, n: nat): (r: Cycler<T>)
    requires c.Valid()
    ensures r.Valid() && r.items == c.items
    decreases n
  {
    if n == 0 then c else Advance(Next(c).1, n - 1)
  }

  /** The items returned by `n` calls of `next`. */
  function Emitted<T>(c: Cycler<T>, n: nat): (r: seq<T>)
    requires c.Valid()
    ensures |r| == n
    decreases n
  {
    if n == 0 then [] else [Next(c).0] + Emitted(Next(c).1, n - 1)
  }

  /** After `n` calls the position has moved `n` places, modulo the number
      of items. */
  lemma {:induction false} AdvancePosition<T>(c: Cycler<T>, n: nat)
    requires c.Valid()
    ensures Advance(c, n).pos == (c.pos + n) % |c.items|
    decreases n
  {
    if n > 0 {
      var c1 := Next(c).1;
      AdvancePosition(c1, n - 1);
      ModStep(c.pos, n, |c.items|);
    }
  }

  lemma ModStep(p: nat, n: nat, len: nat)
    requires p < len && n > 0
    ensures ((p + 1) % len + (n - 1)) % len == (p + n) % len
  {
    if p + 1 == len {
      assert (p + 1) % len == 0;
      ModAddPeriod(n - 1, len);
    } else {
      assert (p + 1) % len == p + 1;
    }
  }

  /** Adding the modulus does not change the remainder. */
  lemma ModAddPeriod(x: nat, len: nat)
    requires len > 0
    ensures (x + len) % len == x % len
  {
    var q, r := x / len, x % len;
    assert x == q * len + r;
    assert x + len == (q + 1) * len + r;
    DivModUnique(x + len, len, q + 1, r);
  }

  lemma DivModUnique(x: int, len: int, q: int, r: int)
    requires len > 0 && 0 <= r < len && x == q * len + r
    ensures x % len == r
  {
    var q', r' := x / len, x % len;
    assert x == q' * len + r';
    if q' < q {
      var d := q - q';
      MulAtLeast(d, len);
      assert false;
    } else if q' > q {
      var d := q' - q;
      MulAtLeast(d, len);
      assert false;
    }
  }

  lemma MulAtLeast(d: int, len: int)
    requires d >= 1 && len > 0
    ensures d * len >= len
  {
    assert d * len == len + (d - 1) * len;
  }

  /** The `i`-th call of `next` returns the item `i` places after the start,
      wrapping around: the items repeat in their order forever. */
  lemma {:induction false} EmittedCycles<T>(c: Cycler<T>, n: nat)
    requires c.Valid()
    ensures forall i :: 0 <= i < n ==> Emitted(c, n)[i] == c.items[(c.pos + i) % |c.items|]
    decreases n
  {
    if n > 0 {
      var len := |c.items|;
      var c1 := Next(c).1;
      var rest := Emitted(c1, n - 1);
      var e := Emitted(c, n);
      assert e == [Current(c)] + rest;
      EmittedCycles(c1, n - 1);
      DivModUnique(c.pos, len, 0, c.pos);
      assert e[0] == c.items[(c.pos + 0) % len];
      forall i | 0 < i < n
        ensures e[i] == c.items[(c.pos + i) % len]
      {
        assert e[i] == rest[i - 1] == c.items[(c1.pos + (i - 1)) % len];
        ModStep(c.pos, i, len);
      }
    }
  }

  /** A fresh cycler yields its items in the order given, starting over after
      the last one, for as many calls as are made. */
  lemma FreshCyclerYieldsInOrder<T>(items: seq<T>, n: nat)
    requires |items| > 0
    ensures NewCycler(items).Ok?
    ensures forall i :: 0 <= i < n ==> Emitted(NewCycler(items).value, n)[i] == items[i % |items|]
  {
    EmittedCycles(NewCycler(items).value, n);
  }

  /** A full round of `next` calls brings the cycler back to where it was. */
  lemma {:induction false} FullRoundIsIdentity<T>(c: Cycler<T>)
    requires c.Valid()
    ensures Advance(c, |c.items|) == c
  {
    var len := |c.items|;
    var a := Advance(c, len);
    AdvancePosition(c, len);
    ModFullRound(c.pos, len);
    SamePosSameCycler(a, c);
  }

  lemma SamePosSameCycler<T>(a: Cycler<T>, c: Cycler<T>)
    requires c.Valid() && a.items == c.items
    requires a.pos == (c.pos + |c.items|) % |c.items| == c.pos
    ensures a == c
  {
  }

  /** Moving a full round from a position in range lands on it again. */
  lemma ModFullRound(p: nat, len: nat)
    requires p < len
    ensures (p + len) % len == p
  {
    ModAddPeriod(p, len);
    DivModUnique(p, len, 0, p);
  }

  datatype Joiner = Joiner(sep: string, used: bool)

  /** `Joiner(sep)`: not yet used. */
  function NewJoiner(sep: string): (j: Joiner)
    ensures j.sep == sep && !j.used
  {
    Joiner(sep, false)
  }

  /** `Joiner()`: the default separator is a comma and a space. */
  function DefaultJoiner(): (j: Joiner)
    ensures j == NewJoiner(", ")
    ensures |j.sep| == 2 && j.sep[0] == ',' && j.sep[1] == ' '
  {
    Joiner(", ", false)
  }

  /** `__call__`: the empty string on the first call, the separator after. */
  function Call(j: Joiner): (r: (string, Joiner))
    ensures r.1.sep == j.sep && r.1.used
    ensures r.0 == "" <==> !j.used || j.sep == ""
    ensures j.used ==> r.0 == j.sep
  {
    if !j.used then ("", j.(used := true)) else (j.sep, j)
  }

  /** The strings returned by `n` calls. */
  function CallOutputs(j: Joiner, n: nat): (r: seq<string>)
    ensures |r| == n
    decreases n
  {
    if n == 0 then [] else [Call(j).0] + CallOutputs(Call(j).1, n - 1)
  }

  /** A fresh joiner called once per item puts the separator between items:
      nothing before the first, the separator before every later one. */
  lemma {:induction false} JoinerSeparates(sep: string, n: nat)
    ensures forall i :: 0 <= i < n ==>
      CallOutputs(NewJoiner(sep), n)[i] == (if i == 0 then "" else sep)
  {
    if n > 0 {
      UsedJoinerRepeats(Joiner(sep, true), n - 1);
    }
  }

  lemma {:induction false} UsedJoinerRepeats(j: Joiner, n: nat)
    requires j.used
    ensures forall i :: 0 <= i < n ==> CallOutputs(j, n)[i] == j.sep
  {
    if n > 0 {
      UsedJoinerRepeats(j, n - 1);
    }
  }
}
