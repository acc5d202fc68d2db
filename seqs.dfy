/**
 * The array operations the source leans on: `Array.from(new Set(xs))`
 * (first-occurrence deduplication), `reverse()`, and `sort` with a key and a
 * direction (JavaScript's sort is stable; so is `SortBy`).
 */
module Seqs {
  import opened Text

  predicate NoDup<T(==)>(s: seq<T>) {
    forall i, j :: 0 <= i < j < |s| ==> s[i] != s[j]
  }

  /** `Array.from(new Set(s))`: each value once, at the place of its first occurrence. */
  function Distinct<T(==,!new)>(s: seq<T>): (r: seq<T>)
    ensures NoDup(r)
    ensures forall x :: x in r <==> x in s
    ensures |r| <= |s|
    decreases |s|
  {
    if s == [] then []
    else
      var p := Distinct(s[..|s| - 1]);
      if s[|s| - 1] in s[..|s| - 1] then p else p + [s[|s| - 1]]
  }

  /** `s.map(f)`: one value per element, in order. */
  function Project<T, U>(s: seq<T>, f: T -> U): (r: seq<U>)
    ensures |r| == |s| && forall i :: 0 <= i < |s| ==> r[i] == f(s[i])
  {
    seq(|s|, i requires 0 <= i < |s| => f(s[i]))
  }

  /** `s.filter(f)`: the elements that pass `f`, in their order. */
  function Filter<T>(s: seq<T>, f: T -> bool): (r: seq<T>)
    ensures |r| <= |s|
    ensures forall i :: 0 <= i < |r| ==> f(r[i])
    decreases |s|
  {
    if s == [] then []
    else
      var p := Filter(s[..|s| - 1], f);
      if f(s[|s| - 1]) then p + [s[|s| - 1]] else p
  }

  /** An element survives the filter exactly when it is in the input and passes the test. */
  lemma {:induction false} FilterMembership<T>(s: seq<T>, f: T -> bool, x: T)
    ensures x in Filter(s, f) <==> x in s && f(x)
    decreases |s|
  {
    if s != [] {
      var p := s[..|s| - 1];
      FilterMembership(p, f, x);
      assert s == p + [s[|s| - 1]];
    }
  }

  /** A filter every element passes keeps the whole sequence. */
  lemma {:induction false} FilterAll<T>(s: seq<T>, f: T -> bool)
    requires forall i :: 0 <= i < |s| ==> f(s[i])
    ensures Filter(s, f) == s
    decreases |s|
  {
    if s != [] {
      FilterAll(s[..|s| - 1], f);
      assert s == s[..|s| - 1] + [s[|s| - 1]];
    }
  }

  /** `s` without its element at position `k`. */
  function RemoveAt<T>(s: seq<T>, k: nat): (r: seq<T>)
    requires k < |s|
    ensures |r| == |s| - 1
    ensures forall i :: 0 <= i < |r| ==> r[i] == if i < k then s[i] else s[i + 1]
  {
    s[..k] + s[k + 1..]
  }

  /** Removing an element keeps a duplicate-free sequence duplicate-free. */
  lemma RemoveAtNoDup<T>(s: seq<T>, k: nat)
    requires k < |s| && NoDup(s)
    ensures NoDup(RemoveAt(s, k))
  {
    var r := RemoveAt(s, k);
    forall i, j | 0 <= i < j < |r|
      ensures r[i] != r[j]
    {
      assert s[if i < k then i else i + 1] != s[if j < k then j else j + 1];
    }
  }

  /** The index of the first occurrence of `x` in `s` (`s.indexOf(x)` when `x` occurs). */
  function FirstIndex<T(==)>(s: seq<T>, x: T): (i: nat)
    requires x in s
    ensures i < |s| && s[i] == x && x !in s[..i]
  {
    if s[0] == x then 0
    else
      var i := 1 + FirstIndex(s[1..], x);
      assert s[..i] == [s[0]] + s[1..][..i - 1];
      i
  }

  lemma FirstIndexAppend<T>(p: seq<T>, t: seq<T>, y: T)
    requires y in p
    ensures FirstIndex(p + t, y) == FirstIndex(p, y)
  {
    var i, k := FirstIndex(p + t, y), FirstIndex(p, y);
    forall m | 0 <= m < i ensures (p + t)[m] != y {
      assert (p + t)[..i][m] == (p + t)[m];
    }
    forall m | 0 <= m < k ensures p[m] != y {
      assert p[..k][m] == p[m];
    }
    assert (p + t)[k] == y;
  }

  /** Distinct keeps values in the order of their first occurrences in the input. */
  lemma {:induction false} DistinctFirstOccurrenceOrder<T(!new)>(s: seq<T>)
    ensures forall i, j :: 0 <= i < j < |Distinct(s)| ==>
      FirstIndex(s, Distinct(s)[i]) < FirstIndex(s, Distinct(s)[j])
    decreases |s|
  {
    if s != [] {
      var p, x := s[..|s| - 1], s[|s| - 1];
      assert s == p + [x];
      DistinctFirstOccurrenceOrder(p);
      var d, dp := Distinct(s), Distinct(p);
      forall i, j | 0 <= i < j < |d|
        ensures FirstIndex(s, d[i]) < FirstIndex(s, d[j])
      {
        FirstIndexAppend(p, [x], d[i]);
        if j < |dp| {
          FirstIndexAppend(p, [x], d[j]);
        } else {
          assert d[j] == x && x !in p;
          assert forall m :: 0 <= m < |p| ==> s[m] == p[m];
        }
      }
    }
  }

  /** `s.slice().reverse()`. */
  function Reverse<T>(s: seq<T>): (r: seq<T>)
    ensures |r| == |s|
  {
    seq(|s|, i requires 0 <= i < |s| => s[|s| - 1 - i])
  }

  /** A loop's prefix grows by the element it has just visited. */
  lemma TakeOneMore<T>(s: seq<T>, i: nat)
    requires i < |s|
    ensures s[..i + 1] == s[..i] + [s[i]]
  {
  }

  /** Sequences with the same multiset have the same members. */
  lemma SameMembers<T>(a: seq<T>, b: seq<T>)
    requires multiset(a) == multiset(b)
    ensures forall x | x in a :: x in b
  {
    forall x | x in a
      ensures x in b
    {
      assert x in multiset(a);
    }
  }

  lemma ReverseReverse<T>(s: seq<T>)
    ensures Reverse(Reverse(s)) == s
  {
  }

  /** Reversing moves elements but neither adds nor drops any. */
  lemma {:induction false} ReversePermutes<T>(s: seq<T>)
    ensures multiset(Reverse(s)) == multiset(s)
    decreases |s|
  {
    if s != [] {
      var p := s[..|s| - 1];
      ReversePermutes(p);
      assert Reverse(s) == [s[|s| - 1]] + Reverse(p);
      assert s == p + [s[|s| - 1]];
    }
  }

  /** `a` comes no later than `b` under an ascending (`desc` false) or descending comparison of keys. */
  predicate InOrder(a: string, b: string, desc: bool) {
    if desc then Le(b, a) else Le(a, b)
  }

  predicate Ordered<T>(s: seq<T>, key: T -> string, desc: bool) {
    forall i, j :: 0 <= i < j < |s| ==> InOrder(key(s[i]), key(s[j]), desc)
  }

  predicate StrictlyOrdered<T>(s: seq<T>, key: T -> string, desc: bool) {
    forall i, j :: 0 <= i < j < |s| ==> InOrder(key(s[i]), key(s[j]), desc) && key(s[i]) != key(s[j])
  }

  predicate DistinctKeys<T>(s: seq<T>, key: T -> string) {
    forall i, j :: 0 <= i < j < |s| ==> key(s[i]) != key(s[j])
  }

  function Identity(s: string): string {
    s
  }

  lemma InOrderTotal(a: string, b: string, desc: bool)
    ensures InOrder(a, b, desc) || InOrder(b, a, desc)
  {
    LeTotal(a, b);
  }

  lemma InOrderTransitive(a: string, b: string, c: string, desc: bool)
    requires InOrder(a, b, desc) && InOrder(b, c, desc)
    ensures InOrder(a, c, desc)
  {
    if desc {
      LeTransitive(c, b, a);
    } else {
      LeTransitive(a, b, c);
    }
  }

  /** Stable insertion: `x` goes before the first element it is in order with. */
  function Insert<T>(x: T, s: seq<T>, key: T -> string, desc: bool): seq<T>
    decreases |s|
  {
    if s == [] || InOrder(key(x), key(s[0]), desc) then [x] + s
    else [s[0]] + Insert(x, s[1..], key, desc)
  }

  /** `s.sort((a, b) => compare(key(a), key(b)))` in the given direction. */
  function SortBy<T>(s: seq<T>, key: T -> string, desc: bool): seq<T>
    decreases |s|
  {
    if s == [] then [] else Insert(s[0], SortBy(s[1..], key, desc), key, desc)
  }

  lemma {:induction false} InsertPermutes<T>(x: T, s: seq<T>, key: T -> string, desc: bool)
    ensures multiset(Insert(x, s, key, desc)) == multiset{x} + multiset(s)
    decreases |s|
  {
    if s != [] && !InOrder(key(x), key(s[0]), desc) {
      InsertPermutes(x, s[1..], key, desc);
      assert s == [s[0]] + s[1..];
    }
  }

  lemma {:induction false} InsertOrdered<T>(x: T, s: seq<T>, key: T -> string, desc: bool)
    requires Ordered(s, key, desc)
    ensures Ordered(Insert(x, s, key, desc), key, desc)
    decreases |s|
  {
    var r := Insert(x, s, key, desc);
    if s == [] {
    } else if InOrder(key(x), key(s[0]), desc) {
      forall j | 1 <= j < |r| ensures InOrder(key(r[0]), key(r[j]), desc) {
        if j > 1 {
          InOrderTransitive(key(x), key(s[0]), key(s[j - 1]), desc);
        }
      }
    } else {
      var t := s[1..];
      InsertOrdered(x, t, key, desc);
      InsertPermutes(x, t, key, desc);
      InOrderTotal(key(x), key(s[0]), desc);
      var u := Insert(x, t, key, desc);
      forall j | 0 <= j < |u| ensures InOrder(key(s[0]), key(u[j]), desc) {
        assert u[j] in multiset(u);
        if u[j] != x {
          assert u[j] in t;
          var k :| 0 <= k < |t| && t[k] == u[j];
          assert s[k + 1] == u[j];
        }
      }
    }
  }

  lemma {:induction false} InsertDistinctKeys<T>(x: T, s: seq<T>, key: T -> string, desc: bool)
    requires DistinctKeys(s, key)
    requires forall y :: y in s ==> key(y) != key(x)
    ensures DistinctKeys(Insert(x, s, key, desc), key)
    decreases |s|
  {
    if s != [] && !InOrder(key(x), key(s[0]), desc) {
      var t := s[1..];
      InsertDistinctKeys(x, t, key, desc);
      InsertPermutes(x, t, key, desc);
      var u := Insert(x, t, key, desc);
      forall j | 0 <= j < |u| ensures key(s[0]) != key(u[j]) {
        assert u[j] in multiset(u);
        if u[j] != x {
          assert u[j] in t;
          var k :| 0 <= k < |t| && t[k] == u[j];
          assert s[k + 1] == u[j];
        }
      }
    }
  }

  /** Sorting yields an ordered permutation of its input. */
  lemma {:induction false} SortByCorrect<T>(s: seq<T>, key: T -> string, desc: bool)
    ensures Ordered(SortBy(s, key, desc), key, desc)
    ensures multiset(SortBy(s, key, desc)) == multiset(s)
    decreases |s|
  {
    if s != [] {
      SortByCorrect(s[1..], key, desc);
      InsertOrdered(s[0], SortBy(s[1..], key, desc), key, desc);
      InsertPermutes(s[0], SortBy(s[1..], key, desc), key, desc);
      assert s == [s[0]] + s[1..];
    }
  }

  /** Sorting values whose keys are pairwise distinct orders them strictly. */
  lemma {:induction false} SortByStrict<T>(s: seq<T>, key: T -> string, desc: bool)
    requires DistinctKeys(s, key)
    ensures StrictlyOrdered(SortBy(s, key, desc), key, desc)
    decreases |s|
  {
    SortByDistinct(s, key, desc);
    SortByCorrect(s, key, desc);
  }

  lemma {:induction false} SortByDistinct<T>(s: seq<T>, key: T -> string, desc: bool)
    requires DistinctKeys(s, key)
    ensures DistinctKeys(SortBy(s, key, desc), key)
    decreases |s|
  {
    if s != [] {
      var t := s[1..];
      SortByDistinct(t, key, desc);
      SortByCorrect(t, key, desc);
      forall y | y in SortBy(t, key, desc) ensures key(y) != key(s[0]) {
        assert y in multiset(SortBy(t, key, desc));
        var k :| 0 <= k < |t| && t[k] == y;
        assert s[k + 1] == y;
      }
      InsertDistinctKeys(s[0], SortBy(t, key, desc), key, desc);
    }
  }

  /** Reversing a sequence ordered one way orders it the other way. */
  lemma ReverseOrdered<T>(s: seq<T>, key: T -> string, desc: bool)
    requires StrictlyOrdered(s, key, desc)
    ensures StrictlyOrdered(Reverse(s), key, !desc)
  {
    var r := Reverse(s);
    forall i, j | 0 <= i < j < |r|
      ensures InOrder(key(r[i]), key(r[j]), !desc) && key(r[i]) != key(r[j])
    {
      assert r[i] == s[|s| - 1 - i] && r[j] == s[|s| - 1 - j];
    }
  }
}
