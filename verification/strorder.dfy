/** Python's ordering of `str` values (code point by code point, a proper
    prefix first) and the two sorts the trainer uses: `sorted(xs)` and
    `sorted(set(xs))`. */
module StrOrder {

  /** `a <= b` on Python strings. */
  predicate Le(a: string, b: string)
    decreases |a|
  {
    a == [] || (b != [] && (a[0] < b[0] || (a[0] == b[0] && Le(a[1..], b[1..]))))
  }

  /** `a < b` on Python strings. */
  predicate Lt(a: string, b: string) {
    Le(a, b) && a != b
  }

  lemma {:induction false} LeReflexive(a: string)
    ensures Le(a, a)
  {
    if a != [] {
      LeReflexive(a[1..]);
    }
  }

  lemma {:induction false} LeAntisymmetric(a: string, b: string)
    requires Le(a, b) && Le(b, a)
    ensures a == b
  {
    if a != [] && b != [] {
      LeAntisymmetric(a[1..], b[1..]);
      assert a == [a[0]] + a[1..];
      assert b == [b[0]] + b[1..];
    }
  }

  lemma {:induction false} LeTransitive(a: string, b: string, c: string)
    requires Le(a, b) && Le(b, c)
    ensures Le(a, c)
  {
    if a != [] && a[0] == b[0] && b[0] == c[0] {
      LeTransitive(a[1..], b[1..], c[1..]);
    }
  }

  lemma {:induction false} LeTotal(a: string, b: string)
    ensures Le(a, b) || Le(b, a)
  {
    if a != [] && b != [] && a[0] == b[0] {
      LeTotal(a[1..], b[1..]);
    }
  }

  predicate Sorted(s: seq<string>) {
    forall i, j :: 0 <= i < j < |s| ==> Le(s[i], s[j])
  }

  predicate StrictlySorted(s: seq<string>) {
    forall i, j :: 0 <= i < j < |s| ==> Lt(s[i], s[j])
  }

  lemma ConsSorted(h: string, t: seq<string>)
    requires Sorted(t)
    requires t == [] || Le(h, t[0])
    ensures Sorted([h] + t)
  {
    forall j | 0 < j < |t| ensures Le(h, t[j]) {
      LeTransitive(h, t[0], t[j]);
    }
  }

  lemma ConsStrictlySorted(h: string, t: seq<string>)
    requires StrictlySorted(t)
    requires t == [] || Lt(h, t[0])
    ensures StrictlySorted([h] + t)
  {
    forall j | 0 < j < |t| ensures Lt(h, t[j]) {
      LeTransitive(h, t[0], t[j]);
      if h == t[j] { LeAntisymmetric(h, t[0]); }
    }
  }

  /** Inserts `x` into a sorted list after the elements smaller than it. */
  function Insert(x: string, s: seq<string>): (r: seq<string>)
    requires Sorted(s)
    ensures |r| == |s| + 1
    ensures Sorted(r)
    ensures multiset(r) == multiset(s) + multiset{x}
    ensures r[0] == x || (s != [] && r[0] == s[0])
  {
    if s == [] then [x]
    else if Le(x, s[0]) then
      ConsSorted(x, s);
      [x] + s
    else
      LeTotal(x, s[0]);
      var t := Insert(x, s[1..]);
      ConsSorted(s[0], t);
      assert s == [s[0]] + s[1..];
      [s[0]] + t
  }

  /** `sorted(xs)`: the same strings, in ascending order. */
  function Sort(xs: seq<string>): (r: seq<string>)
    ensures Sorted(r)
    ensures multiset(r) == multiset(xs)
  {
    if xs == [] then []
    else
      assert xs == xs[..|xs| - 1] + [xs[|xs| - 1]];
      Insert(xs[|xs| - 1], Sort(xs[..|xs| - 1]))
  }

  /** Inserts `x` into a strictly sorted list unless it is already there. */
  function InsertUnique(x: string, s: seq<string>): (r: seq<string>)
    requires StrictlySorted(s)
    ensures StrictlySorted(r)
    ensures forall y :: y in r <==> y == x || y in s
    ensures r != [] && (r[0] == x || (s != [] && r[0] == s[0]))
  {
    if s == [] then [x]
    else if x == s[0] then s
    else if Le(x, s[0]) then
      ConsStrictlySorted(x, s);
      [x] + s
    else
      LeTotal(x, s[0]);
      var t := InsertUnique(x, s[1..]);
      assert Lt(s[0], t[0]) by {
        if t[0] != x { assert Lt(s[0], s[1]); }
      }
      ConsStrictlySorted(s[0], t);
      assert s == [s[0]] + s[1..];
      [s[0]] + t
  }

  /** `sorted(set(xs))`: each distinct string once, in ascending order. */
  function SortUnique(xs: seq<string>): (r: seq<string>)
    ensures StrictlySorted(r)
    ensures forall y :: y in r <==> y in xs
  {
    if xs == [] then []
    else
      assert xs == xs[..|xs| - 1] + [xs[|xs| - 1]];
      InsertUnique(xs[|xs| - 1], SortUnique(xs[..|xs| - 1]))
  }

  lemma SortedHeadIsLeast(s: seq<string>, y: string)
    requires Sorted(s) && y in s
    ensures Le(s[0], y)
  {
    var i :| 0 <= i < |s| && s[i] == y;
    if i == 0 { LeReflexive(y); }
  }

  /** Two sorted lists with the same elements start with the same one. */
  lemma SortedSameHead(a: seq<string>, b: seq<string>)
    requires Sorted(a) && Sorted(b) && a != []
    requires multiset(a) == multiset(b)
    ensures b != [] && a[0] == b[0]
  {
    assert a[0] in multiset(b);
    assert b != [];
    assert b[0] in multiset(a);
    SortedHeadIsLeast(b, a[0]);
    SortedHeadIsLeast(a, b[0]);
    LeAntisymmetric(a[0], b[0]);
  }

  lemma TailMultiset(a: seq<string>)
    requires a != []
    ensures multiset(a[1..]) == multiset(a) - multiset{a[0]}
  {
    assert a == [a[0]] + a[1..];
  }

  /** A sorted list is fixed by its multiset: `sorted` has only one possible
      answer. */
  lemma {:induction false} SortedUnique(a: seq<string>, b: seq<string>)
    requires Sorted(a) && Sorted(b)
    requires multiset(a) == multiset(b)
    ensures a == b
  {
    if a == [] {
      assert |multiset(b)| == 0;
    } else {
      SortedSameHead(a, b);
      TailMultiset(a);
      TailMultiset(b);
      SortedUnique(a[1..], b[1..]);
      assert a == [a[0]] + a[1..];
      assert b == [b[0]] + b[1..];
    }
  }

  lemma SortIdempotent(xs: seq<string>)
    ensures Sort(Sort(xs)) == Sort(xs)
  {
    SortedUnique(Sort(Sort(xs)), Sort(xs));
  }
}
