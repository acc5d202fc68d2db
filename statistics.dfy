/**
 * The statistics page's filter record and the predicate that selects the
 * matches all its views are computed from.
 */
module Statistics {
  import opened Text
  import opened Games

  datatype Filters = Filters(
    tournamentOnly: bool,
    wtc: bool,
    userArmy: string,
    userDetachment: string,
    opponentArmy: string,
    opponentDetachment: string,
    fromMonth: string,
    toMonth: string)

  /** The filter record the page starts with. */
  function DefaultFilters(): Filters {
    Filters(false, false, "all", "all", "all", "all", "", "")
  }

  /** The per-match test, check by check, each failing check rejecting the match at once. */
  function Keep(f: Filters, m: Game): bool {
    if f.tournamentOnly && !m.isTournament then false
    else if f.userArmy != "" && f.userArmy != "all" && m.userArmy != f.userArmy then false
    else if f.userDetachment != "" && f.userDetachment != "all" && m.userDetachment != f.userDetachment then false
    else if f.opponentArmy != "" && f.opponentArmy != "all" && m.opponentArmy != f.opponentArmy then false
    else if f.opponentDetachment != "" && f.opponentDetachment != "all" && m.opponentDetachment != f.opponentDetachment then false
    else
      var month := MonthOf(m);
      if f.fromMonth != "" && Lt(month, f.fromMonth) then false
      else if f.toMonth != "" && Lt(f.toMonth, month) then false
      else true
  }

  /** A name filter that is empty or `"all"` lets every name through; any other admits only itself. */
  predicate NameAdmits(filter: string, name: string) {
    filter == "" || filter == "all" || name == filter
  }

  /** A month bound that is empty admits every month. */
  predicate FromAdmits(from: string, month: string) {
    from == "" || Le(from, month)
  }

  predicate ToAdmits(to: string, month: string) {
    to == "" || Le(month, to)
  }

  /** A match is kept exactly when every check admits it. */
  lemma KeepIsConjunction(f: Filters, m: Game)
    ensures Keep(f, m) <==>
      (!f.tournamentOnly || m.isTournament)
      && NameAdmits(f.userArmy, m.userArmy)
      && NameAdmits(f.userDetachment, m.userDetachment)
      && NameAdmits(f.opponentArmy, m.opponentArmy)
      && NameAdmits(f.opponentDetachment, m.opponentDetachment)
      && FromAdmits(f.fromMonth, MonthOf(m))
      && ToAdmits(f.toMonth, MonthOf(m))
  {
  }

  /** `matches.filter(match => Keep(filters, match))`. */
  function FilteredMatches(f: Filters, ms: seq<Game>): (r: seq<Game>)
    ensures |r| <= |ms|
    decreases |ms|
  {
    if ms == [] then []
    else
      var p := FilteredMatches(f, ms[..|ms| - 1]);
      if Keep(f, ms[|ms| - 1]) then p + [ms[|ms| - 1]] else p
  }

  /** A match is in the result exactly when it is in the input and passes the test. */
  lemma {:induction false} FilteredMembership(f: Filters, ms: seq<Game>, m: Game)
    ensures m in FilteredMatches(f, ms) <==> m in ms && Keep(f, m)
    decreases |ms|
  {
    if ms != [] {
      var p := ms[..|ms| - 1];
      FilteredMembership(f, p, m);
      assert ms == p + [ms[|ms| - 1]];
    }
  }

  /** Filtering distributes over concatenation, so it keeps the input order. */
  lemma {:induction false} FilteredAppend(f: Filters, a: seq<Game>, b: seq<Game>)
    ensures FilteredMatches(f, a + b) == FilteredMatches(f, a) + FilteredMatches(f, b)
    decreases |b|
  {
    if b == [] {
      assert a + b == a;
    } else {
      var q := b[..|b| - 1];
      assert (a + b)[..|a + b| - 1] == a + q;
      assert (a + b)[|a + b| - 1] == b[|b| - 1];
      FilteredAppend(f, a, q);
    }
  }

  /** `a` can be obtained from `b` by dropping elements. */
  predicate Subsequence<T(==)>(a: seq<T>, b: seq<T>)
    decreases |b|
  {
    if a == [] then true
    else if b == [] then false
    else if a[|a| - 1] == b[|b| - 1] then Subsequence(a[..|a| - 1], b[..|b| - 1])
    else Subsequence(a, b[..|b| - 1])
  }

  /** Appending an element to the longer sequence keeps a subsequence one. */
  lemma {:induction false} SubsequenceExtend<T>(a: seq<T>, b: seq<T>, x: T)
    requires Subsequence(a, b)
    ensures Subsequence(a, b + [x])
    decreases |b|, 1
  {
    var c := b + [x];
    assert c[..|c| - 1] == b;
    if a != [] && a[|a| - 1] == x {
      SubsequenceShorter(a, b);
    }
  }

  /** Dropping the last element of a subsequence keeps it one. */
  lemma {:induction false} SubsequenceShorter<T>(a: seq<T>, b: seq<T>)
    requires a != [] && Subsequence(a, b)
    ensures Subsequence(a[..|a| - 1], b)
    decreases |b|, 0
  {
    var b' := b[..|b| - 1];
    assert b == b' + [b[|b| - 1]];
    if a[|a| - 1] != b[|b| - 1] {
      SubsequenceShorter(a, b');
    }
    SubsequenceExtend(a[..|a| - 1], b', b[|b| - 1]);
  }

  /** The kept matches are a subsequence of the input: nothing added, nothing reordered. */
  lemma {:induction false} FilteredIsSubsequence(f: Filters, ms: seq<Game>)
    ensures Subsequence(FilteredMatches(f, ms), ms)
    decreases |ms|
  {
    if ms != [] {
      var p, m := ms[..|ms| - 1], ms[|ms| - 1];
      FilteredIsSubsequence(f, p);
      var r := FilteredMatches(f, ms);
      if Keep(f, m) {
        assert r[..|r| - 1] == FilteredMatches(f, p);
      } else {
        SubsequenceExtend(r, p, m);
        assert p + [m] == ms;
      }
    }
  }

  /** Under the default filter record no match is excluded. */
  lemma {:induction false} DefaultsKeepAll(ms: seq<Game>)
    ensures FilteredMatches(DefaultFilters(), ms) == ms
    decreases |ms|
  {
    if ms != [] {
      DefaultsKeepAll(ms[..|ms| - 1]);
      assert ms[..|ms| - 1] + [ms[|ms| - 1]] == ms;
    }
  }

  /** Every kept match satisfies every active filter. */
  lemma KeptSatisfiesFilters(f: Filters, ms: seq<Game>)
    ensures forall m | m in FilteredMatches(f, ms) ::
      (f.tournamentOnly ==> m.isTournament)
      && NameAdmits(f.userArmy, m.userArmy)
      && NameAdmits(f.userDetachment, m.userDetachment)
      && NameAdmits(f.opponentArmy, m.opponentArmy)
      && NameAdmits(f.opponentDetachment, m.opponentDetachment)
      && (f.fromMonth != "" ==> Le(f.fromMonth, MonthOf(m)))
      && (f.toMonth != "" ==> Le(MonthOf(m), f.toMonth))
  {
    forall m | m in FilteredMatches(f, ms) ensures Keep(f, m) {
      FilteredMembership(f, ms, m);
    }
  }
}
