/**
  What the two duplicate searches of main.py compute, as functions on
  sequences, and the partition properties proved about them.

  A file identifier is a type parameter `T`; the content comparison of the
  helper module is the parameter `eq`, where `eq(a, b)` means "file `a` has
  the same content as file `b`".
 */
module Grouping {
  import opened Sequences

  /** `compare` says every file matches itself. */
  ghost predicate Reflexive<T(!new)>(eq: (T, T) -> bool) {
    forall x :: eq(x, x)
  }

  /** `compare` is an equivalence relation ("has identical content to"). */
  ghost predicate Equivalence<T(!new)>(eq: (T, T) -> bool) {
    && Reflexive(eq)
    && (forall x, y :: eq(x, y) ==> eq(y, x))
    && (forall x, y, z :: eq(x, y) && eq(y, z) ==> eq(x, z))
  }

  /** The elements `y` of `s` with `eq(x, y)`, in their order in `s`:
      `list(filter(lambda y: compare(x, y), s))`. */
  function Matches<T(==,!new)>(s: seq<T>, eq: (T, T) -> bool, x: T): (r: seq<T>)
    ensures |r| <= |s|
    ensures forall y {:trigger y in r} :: y in r <==> y in s && eq(x, y)
  {
    if s == [] then []
    else (if eq(x, s[0]) then [s[0]] else []) + Matches(s[1..], eq, x)
  }

  /** The elements `y` of `s` with `!eq(x, y)`, in their order in `s`:
      `list(filter(lambda y: not compare(x, y), s))`. */
  function Unmatched<T(==,!new)>(s: seq<T>, eq: (T, T) -> bool, x: T): (r: seq<T>)
    ensures |r| + |Matches(s, eq, x)| == |s|
    ensures forall y {:trigger y in r} :: y in r <==> y in s && !eq(x, y)
  {
    if s == [] then []
    else (if eq(x, s[0]) then [] else [s[0]]) + Unmatched(s[1..], eq, x)
  }

  /** The groups `search` returns (main.py:17-40): take the head of the list,
      emit every element that matches it if there are two or more, and go on
      with the elements that do not match it. The head leaves the list only
      because it matches itself, hence the precondition. */
  function SearchGroups<T(==,!new)>(s: seq<T>, eq: (T, T) -> bool): (r: seq<seq<T>>)
    requires Reflexive(eq)
    ensures forall k :: 0 <= k < |r| ==> |r[k]| >= 2
    decreases |s|
  {
    if s == [] then []
    else
      var dups := Matches(s, eq, s[0]);
      var rest := Unmatched(s, eq, s[0]);
      (if |dups| > 1 then [dups] else []) + SearchGroups(rest, eq)
  }

  /** The groups `faster_search` returns (main.py:43-67): pop the head, pop
      every later element that matches it while scanning from the back (so
      they join the group in descending index order), emit the group if it
      has two or more members, and go on with what is left. */
  function FasterGroups<T(==,!new)>(s: seq<T>, eq: (T, T) -> bool): (r: seq<seq<T>>)
    ensures forall k :: 0 <= k < |r| ==> |r[k]| >= 2
    decreases |s|
  {
    if s == [] then []
    else
      var dups := [s[0]] + Reverse(Matches(s[1..], eq, s[0]));
      (if |dups| > 1 then [dups] else []) + FasterGroups(Unmatched(s[1..], eq, s[0]), eq)
  }

  /** The elements of `v` that satisfy `p`, in their order in `v`. */
  function Keep<T>(v: seq<T>, p: T -> bool): seq<T>
  {
    if v == [] then [] else (if p(v[0]) then [v[0]] else []) + Keep(v[1..], p)
  }

  /** Whether a file has fewer than two equal files (itself included) in
      `within`. */
  function IsSingleIn<T(==,!new)>(within: seq<T>, eq: (T, T) -> bool): T -> bool
  {
    y => |Matches(within, eq, y)| < 2
  }

  /** The elements of `v` that have no duplicate in `within`: the files
      neither search puts into a group. */
  function Singles<T(==,!new)>(v: seq<T>, within: seq<T>, eq: (T, T) -> bool): seq<T>
  {
    Keep(v, IsSingleIn(within, eq))
  }

  // ---------------------------------------------------------------------
  // Filtering facts

  /** The matches and the non-matches of `x` together are a permutation of `s`. */
  lemma SplitPermutation<T(!new)>(s: seq<T>, eq: (T, T) -> bool, x: T)
    ensures multiset(Matches(s, eq, x)) + multiset(Unmatched(s, eq, x)) == multiset(s)
  {
    MatchesAreKept(s, eq, x);
    KeepPartition(s, Matching(eq, x), NotMatching(eq, x));
  }

  lemma {:induction false} MatchesAppend<T(!new)>(a: seq<T>, b: seq<T>, eq: (T, T) -> bool, x: T)
    ensures Matches(a + b, eq, x) == Matches(a, eq, x) + Matches(b, eq, x)
  {
    if a == [] {
      assert a + b == b;
    } else {
      assert (a + b)[0] == a[0];
      assert (a + b)[1..] == a[1..] + b;
      MatchesAppend(a[1..], b, eq, x);
      var h := if eq(x, a[0]) then [a[0]] else [];
      calc {
        Matches(a + b, eq, x);
        h + Matches(a[1..] + b, eq, x);
        h + (Matches(a[1..], eq, x) + Matches(b, eq, x));
        (h + Matches(a[1..], eq, x)) + Matches(b, eq, x);
        Matches(a, eq, x) + Matches(b, eq, x);
      }
    }
  }

  lemma {:induction false} UnmatchedAppend<T(!new)>(a: seq<T>, b: seq<T>, eq: (T, T) -> bool, x: T)
    ensures Unmatched(a + b, eq, x) == Unmatched(a, eq, x) + Unmatched(b, eq, x)
  {
    if a == [] {
      assert a + b == b;
    } else {
      assert (a + b)[0] == a[0];
      assert (a + b)[1..] == a[1..] + b;
      UnmatchedAppend(a[1..], b, eq, x);
      var h := if eq(x, a[0]) then [] else [a[0]];
      calc {
        Unmatched(a + b, eq, x);
        h + Unmatched(a[1..] + b, eq, x);
        h + (Unmatched(a[1..], eq, x) + Unmatched(b, eq, x));
        (h + Unmatched(a[1..], eq, x)) + Unmatched(b, eq, x);
        Unmatched(a, eq, x) + Unmatched(b, eq, x);
      }
    }
  }

  /** Filtering out the matches of `x` a second time changes nothing. */
  lemma {:induction false} UnmatchedTwice<T(!new)>(s: seq<T>, eq: (T, T) -> bool, x: T)
    ensures Unmatched(Unmatched(s, eq, x), eq, x) == Unmatched(s, eq, x)
  {
    if s != [] {
      var u := Unmatched(s[1..], eq, x);
      UnmatchedTwice(s[1..], eq, x);
      if eq(x, s[0]) {
        assert Unmatched(s, eq, x) == u;
      } else {
        assert Unmatched(s, eq, x) == [s[0]] + u;
        assert ([s[0]] + u)[1..] == u;
        assert Unmatched([s[0]] + u, eq, x) == [s[0]] + Unmatched(u, eq, x);
      }
    }
  }

  /** Equivalent files have the same matches. */
  lemma {:induction false} MatchesOfEquivalent<T(!new)>(s: seq<T>, eq: (T, T) -> bool, x: T, y: T)
    requires Equivalence(eq) && eq(x, y)
    ensures Matches(s, eq, y) == Matches(s, eq, x)
  {
    if s != [] {
      MatchesOfEquivalent(s[1..], eq, x, y);
      assert eq(x, s[0]) == eq(y, s[0]);
    }
  }

  /** Removing the files equal to `x` does not change the matches of a file
      that is not equal to `x`. */
  lemma {:induction false} MatchesAfterRemoval<T(!new)>(s: seq<T>, eq: (T, T) -> bool, x: T, y: T)
    requires Equivalence(eq) && !eq(x, y)
    ensures Matches(Unmatched(s, eq, x), eq, y) == Matches(s, eq, y)
  {
    if s != [] {
      var u := Unmatched(s[1..], eq, x);
      MatchesAfterRemoval(s[1..], eq, x, y);
      if eq(x, s[0]) {
        assert Unmatched(s, eq, x) == u;
        assert !eq(y, s[0]);
        assert Matches(s, eq, y) == Matches(s[1..], eq, y);
      } else {
        assert Unmatched(s, eq, x) == [s[0]] + u;
        assert ([s[0]] + u)[1..] == u;
      }
    }
  }

  // ---------------------------------------------------------------------
  // search: partition soundness and completeness

  /** One step of `search` on a non-empty list whose head matches itself:
      the head comes first in its group and leaves the list. */
  lemma SearchStep<T(!new)>(s: seq<T>, eq: (T, T) -> bool)
    requires s != [] && eq(s[0], s[0])
    ensures Matches(s, eq, s[0]) == [s[0]] + Matches(s[1..], eq, s[0])
    ensures Unmatched(s, eq, s[0]) == Unmatched(s[1..], eq, s[0])
    ensures |Unmatched(s, eq, s[0])| < |s|
  {
  }

  /** `search` on a non-empty list: the head's group, if it has two or more
      members, followed by the groups of what is left. */
  lemma SearchUnfold<T(!new)>(s: seq<T>, eq: (T, T) -> bool)
    requires Reflexive(eq) && s != []
    ensures var dups := Matches(s, eq, s[0]);
      SearchGroups(s, eq) == (if |dups| > 1 then [dups] else []) + SearchGroups(Unmatched(s, eq, s[0]), eq)
    ensures |Unmatched(s, eq, s[0])| < |s|
  {
    SearchStep(s, eq);
  }

  /** `faster_search` on a non-empty list: the head followed by its matches
      in descending index order, if there are any, followed by the groups
      of what is left. */
  lemma FasterUnfold<T(!new)>(s: seq<T>, eq: (T, T) -> bool)
    requires s != []
    ensures var dups := [s[0]] + Reverse(Matches(s[1..], eq, s[0]));
      FasterGroups(s, eq) == (if |dups| > 1 then [dups] else []) + FasterGroups(Unmatched(s[1..], eq, s[0]), eq)
  {
  }

  /** Every group `search` emits is exactly the list of the input's files
      equal to its first member, in input order, and that first member is a
      file of the input. */
  lemma {:induction false} SearchGroupsAreClasses<T(!new)>(s: seq<T>, eq: (T, T) -> bool)
    requires Equivalence(eq)
    ensures forall g :: g in SearchGroups(s, eq) ==> g[0] in s && g == Matches(s, eq, g[0])
    decreases |s|
  {
    if s != [] {
      var x := s[0];
      var dups := Matches(s, eq, x);
      var rest := Unmatched(s, eq, x);
      SearchStep(s, eq);
      SearchUnfold(s, eq);
      SearchGroupsAreClasses(rest, eq);
      forall g | g in SearchGroups(rest, eq)
        ensures g[0] in s && g == Matches(s, eq, g[0])
      {
        MatchesAfterRemoval(s, eq, x, g[0]);
      }
    }
  }

  /** The first members of the groups, in group order. */
  function Heads<T>(groups: seq<seq<T>>): (r: seq<T>)
    requires forall k :: 0 <= k < |groups| ==> |groups[k]| > 0
    ensures |r| == |groups| && forall k :: 0 <= k < |r| ==> r[k] == groups[k][0]
  {
    if groups == [] then [] else [groups[0][0]] + Heads(groups[1..])
  }

  /** No element of `s` matches an element after it. */
  ghost predicate NoLaterMatch<T(!new)>(s: seq<T>, eq: (T, T) -> bool) {
    forall i, j :: 0 <= i < j < |s| ==> !eq(s[i], s[j])
  }

  lemma NoLaterMatchCons<T(!new)>(s: seq<T>, eq: (T, T) -> bool)
    requires s != []
    ensures NoLaterMatch(s, eq)
        <==> (forall j :: 0 <= j < |s[1..]| ==> !eq(s[0], s[1..][j])) && NoLaterMatch(s[1..], eq)
  {
    var t := s[1..];
    if (forall j :: 0 <= j < |t| ==> !eq(s[0], t[j])) && NoLaterMatch(t, eq) {
      forall i, j | 0 <= i < j < |s| ensures !eq(s[i], s[j]) {
        assert s[j] == t[j - 1];
        if i > 0 { assert s[i] == t[i - 1]; }
      }
    }
  }

  /** The first member of every group of `search` is a file of the input. */
  lemma {:induction false} SearchHeadsFromInput<T(!new)>(s: seq<T>, eq: (T, T) -> bool)
    requires Reflexive(eq)
    ensures forall h :: h in Heads(SearchGroups(s, eq)) ==> h in s
    decreases |s|
  {
    if s != [] {
      var x := s[0];
      var dups := Matches(s, eq, x);
      var rest := Unmatched(s, eq, x);
      SearchUnfold(s, eq);
      SearchHeadsFromInput(rest, eq);
      var tail := SearchGroups(rest, eq);
      if |dups| > 1 {
        assert Heads(SearchGroups(s, eq)) == [x] + Heads(tail);
      } else {
        assert SearchGroups(s, eq) == tail;
      }
    }
  }

  /** No two groups of `search` hold equal files: no group's first member
      matches the first member of a later group. */
  lemma {:induction false} SearchGroupsDisjoint<T(!new)>(s: seq<T>, eq: (T, T) -> bool)
    requires Equivalence(eq)
    ensures NoLaterMatch(Heads(SearchGroups(s, eq)), eq)
    decreases |s|
  {
    if s != [] {
      var x := s[0];
      var dups := Matches(s, eq, x);
      var rest := Unmatched(s, eq, x);
      SearchUnfold(s, eq);
      SearchGroupsDisjoint(rest, eq);
      var tail := SearchGroups(rest, eq);
      if |dups| > 1 {
        var hs := Heads(tail);
        assert Heads(SearchGroups(s, eq)) == [x] + hs;
        SearchHeadsFromInput(rest, eq);
        forall j | 0 <= j < |hs| ensures !eq(x, hs[j]) {
          assert hs[j] in rest;
        }
        NoLaterMatchCons([x] + hs, eq);
      } else {
        assert SearchGroups(s, eq) == tail;
      }
    }
  }

  /** A file lands in a group of `search` if and only if it has a duplicate
      in the input. */
  lemma SearchComplete<T(!new)>(s: seq<T>, eq: (T, T) -> bool, y: T)
    requires Equivalence(eq)
    ensures (exists g :: g in SearchGroups(s, eq) && y in g) <==> y in s && |Matches(s, eq, y)| >= 2
  {
    SearchGroupsAreClasses(s, eq);
    if g :| g in SearchGroups(s, eq) && y in g {
      MatchesOfEquivalent(s, eq, g[0], y);
    }
    if y in s && |Matches(s, eq, y)| >= 2 {
      var g := SearchGroupOf(s, eq, y);
    }
  }

  /** The group of `search` that holds a file with a duplicate. */
  lemma {:induction false} SearchGroupOf<T(!new)>(s: seq<T>, eq: (T, T) -> bool, y: T) returns (g: seq<T>)
    requires Equivalence(eq)
    requires y in s && |Matches(s, eq, y)| >= 2
    ensures g in SearchGroups(s, eq) && y in g
    decreases |s|
  {
    var x := s[0];
    var dups := Matches(s, eq, x);
    var rest := Unmatched(s, eq, x);
    SearchStep(s, eq);
    SearchUnfold(s, eq);
    if eq(x, y) {
      MatchesOfEquivalent(s, eq, x, y);
      assert y in dups;
      g := dups;
    } else {
      MatchesAfterRemoval(s, eq, x, y);
      assert y in rest;
      g := SearchGroupOf(rest, eq, y);
    }
  }

  /** Filtering `v` by two predicates that agree on every element of `v`
      keeps the same elements. */
  lemma {:induction false} KeepAgree<T>(v: seq<T>, p: T -> bool, q: T -> bool)
    requires forall y :: y in v ==> p(y) == q(y)
    ensures Keep(v, p) == Keep(v, q)
  {
    if v != [] {
      KeepAgree(v[1..], p, q);
    }
  }

  /** Keeping from a list whose elements all give `p` the same answer `b`. */
  lemma {:induction false} KeepUniform<T>(v: seq<T>, p: T -> bool, b: bool)
    requires forall y :: y in v ==> p(y) == b
    ensures Keep(v, p) == if b then v else []
  {
    if v != [] {
      KeepUniform(v[1..], p, b);
      assert v == [v[0]] + v[1..];
    }
  }

  lemma KeepCons<T>(y: T, u: seq<T>, p: T -> bool)
    ensures Keep([y] + u, p) == (if p(y) then [y] else []) + Keep(u, p)
  {
    assert ([y] + u)[1..] == u;
  }

  /** Whether a file matches `x`, and whether it does not. */
  function Matching<T>(eq: (T, T) -> bool, x: T): T -> bool
  {
    y => eq(x, y)
  }

  function NotMatching<T>(eq: (T, T) -> bool, x: T): T -> bool
  {
    y => !eq(x, y)
  }

  /** The matches and non-matches of `x` are what keeping by `Matching`
      and by `NotMatching` gives. */
  lemma {:induction false} MatchesAreKept<T(!new)>(v: seq<T>, eq: (T, T) -> bool, x: T)
    ensures Matches(v, eq, x) == Keep(v, Matching(eq, x))
    ensures Unmatched(v, eq, x) == Keep(v, NotMatching(eq, x))
  {
    if v != [] {
      MatchesAreKept(v[1..], eq, x);
    }
  }

  /** Splitting a list by `q` and its complement `r` loses and duplicates
      nothing. */
  lemma {:induction false} KeepPartition<T>(v: seq<T>, q: T -> bool, r: T -> bool)
    requires forall y :: r(y) == !q(y)
    ensures multiset(Keep(v, q)) + multiset(Keep(v, r)) == multiset(v)
  {
    if v != [] {
      var y, rest := v[0], v[1..];
      KeepPartition(rest, q, r);
      var m, u := Keep(rest, q), Keep(rest, r);
      assert multiset(v) == multiset{y} + multiset(rest) by {
        assert v == [y] + rest;
      }
      if q(y) {
        assert Keep(v, q) == [y] + m && Keep(v, r) == u;
        UnionAssoc(multiset{y}, multiset(m), multiset(u));
      } else {
        assert Keep(v, q) == m && Keep(v, r) == [y] + u;
        UnionSwap(multiset{y}, multiset(m), multiset(u));
      }
    }
  }

  /** Keeping by `p` distributes over a split of the list by `q` and its
      complement `r`. */
  lemma {:induction false} KeepSplit<T>(v: seq<T>, p: T -> bool, q: T -> bool, r: T -> bool)
    requires forall y :: r(y) == !q(y)
    ensures multiset(Keep(v, p)) == multiset(Keep(Keep(v, q), p)) + multiset(Keep(Keep(v, r), p))
  {
    if v != [] {
      var y, rest := v[0], v[1..];
      KeepSplit(rest, p, q, r);
      var m, u := Keep(rest, q), Keep(rest, r);
      var h := if p(y) then [y] else [];
      assert Keep(v, p) == h + Keep(rest, p);
      if q(y) {
        assert Keep(v, q) == [y] + m;
        assert Keep(v, r) == u;
        KeepCons(y, m, p);
        UnionAssoc(multiset(h), multiset(Keep(m, p)), multiset(Keep(u, p)));
      } else {
        assert Keep(v, q) == m;
        assert Keep(v, r) == [y] + u;
        KeepCons(y, u, p);
        UnionSwap(multiset(h), multiset(Keep(m, p)), multiset(Keep(u, p)));
      }
    }
  }

  /** The singles of the whole list are the head's matches when there are
      fewer than two of them, followed by the singles of what is left. */
  lemma SinglesStep<T(!new)>(s: seq<T>, eq: (T, T) -> bool)
    requires Equivalence(eq) && s != []
    ensures var dups, rest := Matches(s, eq, s[0]), Unmatched(s, eq, s[0]);
      multiset(Singles(s, s, eq)) == multiset(if |dups| < 2 then dups else []) + multiset(Singles(rest, rest, eq))
  {
    var x := s[0];
    var dups, rest := Matches(s, eq, x), Unmatched(s, eq, x);
    var single, singleRest := IsSingleIn(s, eq), IsSingleIn(rest, eq);
    KeepSplit(s, single, Matching(eq, x), NotMatching(eq, x));
    MatchesAreKept(s, eq, x);
    forall y | y in dups ensures single(y) == (|dups| < 2) {
      MatchesOfEquivalent(s, eq, x, y);
    }
    KeepUniform(dups, single, |dups| < 2);
    forall y | y in rest ensures single(y) == singleRest(y) {
      MatchesAfterRemoval(s, eq, x, y);
    }
    KeepAgree(rest, single, singleRest);
  }

  lemma UnionAssoc<T>(a: multiset<T>, b: multiset<T>, c: multiset<T>)
    ensures a + (b + c) == (a + b) + c
  {
  }

  lemma UnionSwap<T>(a: multiset<T>, b: multiset<T>, c: multiset<T>)
    ensures a + (b + c) == b + (a + c)
  {
  }

  /** Regrouping four multisets. */
  lemma Shuffle<T>(a: multiset<T>, b: multiset<T>, c: multiset<T>, d: multiset<T>)
    ensures (a + b) + (c + d) == (a + c) + (b + d)
  {
  }

  /** `search` loses and duplicates nothing: its groups together with the
      files that have no duplicate are a permutation of the input. */
  lemma {:induction false} SearchPermutation<T(!new)>(s: seq<T>, eq: (T, T) -> bool)
    requires Equivalence(eq)
    ensures multiset(Flatten(SearchGroups(s, eq))) + multiset(Singles(s, s, eq)) == multiset(s)
    decreases |s|
  {
    if s != [] {
      var x := s[0];
      var dups := Matches(s, eq, x);
      var rest := Unmatched(s, eq, x);
      var head: seq<seq<T>> := if |dups| > 1 then [dups] else [];
      var single := if |dups| < 2 then dups else [];
      SearchUnfold(s, eq);
      SearchPermutation(rest, eq);
      FlattenAppend(head, SearchGroups(rest, eq));
      assert multiset(Flatten(head)) + multiset(single) == multiset(dups);
      SplitPermutation(s, eq, x);
      SinglesStep(s, eq);
      Shuffle(multiset(Flatten(head)), multiset(Flatten(SearchGroups(rest, eq))),
        multiset(single), multiset(Singles(rest, rest, eq)));
    }
  }

  /** Without reflexivity `search` never ends: if the head does not match
      itself, it stays at the head and the list stops changing. */
  lemma SearchStallsWithoutReflexivity<T(!new)>(s: seq<T>, eq: (T, T) -> bool)
    requires s != [] && !eq(s[0], s[0])
    ensures var rest := Unmatched(s, eq, s[0]);
      rest != [] && rest[0] == s[0] && Unmatched(rest, eq, rest[0]) == rest
  {
    var u := Unmatched(s[1..], eq, s[0]);
    assert Unmatched(s, eq, s[0]) == [s[0]] + u;
    UnmatchedTwice(s, eq, s[0]);
  }

  // ---------------------------------------------------------------------
  // faster_search and its agreement with search

  /** The two searches return the same number of groups, in the same order,
      with the same first member; `faster_search` lists the other members of
      each group in the reverse of the order `search` does. */
  lemma {:induction false} SearchesAgree<T(!new)>(s: seq<T>, eq: (T, T) -> bool)
    requires Reflexive(eq)
    ensures var a, b := SearchGroups(s, eq), FasterGroups(s, eq);
      |a| == |b| && forall k :: 0 <= k < |a| ==> b[k] == [a[k][0]] + Reverse(a[k][1..])
    decreases |s|
  {
    if s != [] {
      var x := s[0];
      var dups := Matches(s, eq, x);
      var rest := Unmatched(s, eq, x);
      SearchStep(s, eq);
      SearchesAgree(rest, eq);
      var a, b := SearchGroups(rest, eq), FasterGroups(rest, eq);
      var fdups := [x] + Reverse(Matches(s[1..], eq, x));
      assert SearchGroups(s, eq) == (if |dups| > 1 then [dups] else []) + a;
      assert FasterGroups(s, eq) == (if |fdups| > 1 then [fdups] else []) + b;
      assert dups[0] == x && dups[1..] == Matches(s[1..], eq, x);
    }
  }

  /** Corresponding groups of the two searches hold the same files. */
  lemma SearchesAgreeAsMultisets<T(!new)>(s: seq<T>, eq: (T, T) -> bool)
    requires Reflexive(eq)
    ensures var a, b := SearchGroups(s, eq), FasterGroups(s, eq);
      |a| == |b| && Heads(a) == Heads(b) && forall k :: 0 <= k < |a| ==> multiset(b[k]) == multiset(a[k])
  {
    var a, b := SearchGroups(s, eq), FasterGroups(s, eq);
    SearchesAgree(s, eq);
    forall k | 0 <= k < |a|
      ensures b[k][0] == a[k][0] && multiset(b[k]) == multiset(a[k])
    {
      ReversedTail(a[k], b[k]);
    }
    assert Heads(a) == Heads(b);
  }

  /** A group and the same group with its tail reversed have the same head
      and the same members. */
  lemma ReversedTail<T>(g: seq<T>, h: seq<T>)
    requires g != [] && h == [g[0]] + Reverse(g[1..])
    ensures h[0] == g[0] && multiset(h) == multiset(g)
  {
    ReverseMultiset(g[1..]);
    assert g == [g[0]] + g[1..];
  }

  lemma {:induction false} UnmatchedWhenNoMatch<T(!new)>(s: seq<T>, eq: (T, T) -> bool, x: T)
    requires Matches(s, eq, x) == []
    ensures Unmatched(s, eq, x) == s
  {
    if s != [] {
      UnmatchedWhenNoMatch(s[1..], eq, x);
      assert s == [s[0]] + s[1..];
    }
  }

  lemma {:induction false} MatchesEmptyIff<T(!new)>(s: seq<T>, eq: (T, T) -> bool, x: T)
    ensures Matches(s, eq, x) == [] <==> forall j :: 0 <= j < |s| ==> !eq(x, s[j])
  {
    if s != [] {
      MatchesEmptyIff(s[1..], eq, x);
      assert forall j :: 0 < j < |s| ==> s[j] == s[1..][j - 1];
    }
  }

  /** `faster_search` returns no group exactly when no file matches a file
      after it in the list; this needs nothing of `compare`. */
  lemma {:induction false} FasterEmptyIff<T(!new)>(s: seq<T>, eq: (T, T) -> bool)
    ensures FasterGroups(s, eq) == [] <==> NoLaterMatch(s, eq)
  {
    if s != [] {
      var x, t := s[0], s[1..];
      var m := Matches(t, eq, x);
      MatchesEmptyIff(t, eq, x);
      NoLaterMatchCons(s, eq);
      if m == [] {
        UnmatchedWhenNoMatch(t, eq, x);
        assert FasterGroups(s, eq) == FasterGroups(t, eq);
        FasterEmptyIff(t, eq);
      } else {
        assert |[x] + Reverse(m)| > 1;
        assert FasterGroups(s, eq) != [];
      }
    }
  }

  /** `search` returns no group exactly when no file matches a file after
      it: in particular on an empty list and on a list of unique files. */
  lemma SearchEmptyIff<T(!new)>(s: seq<T>, eq: (T, T) -> bool)
    requires Reflexive(eq)
    ensures SearchGroups(s, eq) == [] <==> NoLaterMatch(s, eq)
  {
    SearchesAgree(s, eq);
    FasterEmptyIff(s, eq);
  }

  /** Every group of `faster_search` is its first member followed by the
      other files of the input equal to it, in descending input order; it
      holds the same files as that class. */
  lemma FasterGroupsAreClasses<T(!new)>(s: seq<T>, eq: (T, T) -> bool)
    requires Equivalence(eq)
    ensures forall g :: g in FasterGroups(s, eq) ==>
      && g[0] in s
      && multiset(g) == multiset(Matches(s, eq, g[0]))
      && g == [g[0]] + Reverse(Matches(s, eq, g[0])[1..])
  {
    var a, b := SearchGroups(s, eq), FasterGroups(s, eq);
    SearchesAgree(s, eq);
    SearchesAgreeAsMultisets(s, eq);
    SearchGroupsAreClasses(s, eq);
    forall g | g in b
      ensures g[0] in s && multiset(g) == multiset(Matches(s, eq, g[0]))
      ensures g == [g[0]] + Reverse(Matches(s, eq, g[0])[1..])
    {
      var k :| 0 <= k < |b| && b[k] == g;
      assert a[k] in a;
    }
  }

  /** No two groups of `faster_search` hold equal files. */
  lemma FasterGroupsDisjoint<T(!new)>(s: seq<T>, eq: (T, T) -> bool)
    requires Equivalence(eq)
    ensures NoLaterMatch(Heads(FasterGroups(s, eq)), eq)
  {
    SearchesAgreeAsMultisets(s, eq);
    SearchGroupsDisjoint(s, eq);
  }

  /** A file lands in a group of `faster_search` if and only if it has a
      duplicate in the input. */
  lemma FasterComplete<T(!new)>(s: seq<T>, eq: (T, T) -> bool, y: T)
    requires Equivalence(eq)
    ensures (exists g :: g in FasterGroups(s, eq) && y in g) <==> y in s && |Matches(s, eq, y)| >= 2
  {
    SearchesAgreeAsMultisets(s, eq);
    SearchComplete(s, eq, y);
    SameMembers(SearchGroups(s, eq), FasterGroups(s, eq), y);
    SameMembers(FasterGroups(s, eq), SearchGroups(s, eq), y);
  }

  /** A file in some group of `a` is in some group of `b` when the groups
      are pairwise permutations of each other. */
  lemma SameMembers<T>(a: seq<seq<T>>, b: seq<seq<T>>, y: T)
    requires |a| == |b| && forall k :: 0 <= k < |a| ==> multiset(b[k]) == multiset(a[k])
    ensures (exists g :: g in a && y in g) ==> exists g :: g in b && y in g
  {
    if g :| g in a && y in g {
      var k :| 0 <= k < |a| && a[k] == g;
      assert y in multiset(b[k]);
      assert b[k] in b;
    }
  }

  /** `faster_search` loses and duplicates nothing: its groups together with
      the files that have no duplicate are a permutation of the input. */
  lemma FasterPermutation<T(!new)>(s: seq<T>, eq: (T, T) -> bool)
    requires Equivalence(eq)
    ensures multiset(Flatten(FasterGroups(s, eq))) + multiset(Singles(s, s, eq)) == multiset(s)
  {
    SearchesAgreeAsMultisets(s, eq);
    FlattenPermutation(FasterGroups(s, eq), SearchGroups(s, eq));
    SearchPermutation(s, eq);
  }

  // ---------------------------------------------------------------------
  // Searching the output again

  lemma {:induction false} MatchesAll<T(!new)>(v: seq<T>, eq: (T, T) -> bool, x: T)
    requires forall y :: y in v ==> eq(x, y)
    ensures Matches(v, eq, x) == v && Unmatched(v, eq, x) == []
  {
    if v != [] {
      MatchesAll(v[1..], eq, x);
      assert v == [v[0]] + v[1..];
    }
  }

  lemma {:induction false} MatchesNone<T(!new)>(v: seq<T>, eq: (T, T) -> bool, x: T)
    requires forall y :: y in v ==> !eq(x, y)
    ensures Matches(v, eq, x) == [] && Unmatched(v, eq, x) == v
  {
    if v != [] {
      MatchesNone(v[1..], eq, x);
      assert v == [v[0]] + v[1..];
    }
  }

  /** Groups of at least two equal files, no two of them equal to each other. */
  ghost predicate AreDuplicateGroups<T(!new)>(groups: seq<seq<T>>, eq: (T, T) -> bool) {
    && (forall k :: 0 <= k < |groups| ==> |groups[k]| >= 2)
    && (forall k, y :: 0 <= k < |groups| && y in groups[k] ==> eq(groups[k][0], y))
    && NoLaterMatch(Heads(groups), eq)
  }

  /** Dropping the first of several duplicate groups leaves duplicate
      groups none of whose files equals the first group's head. */
  lemma DuplicateGroupsTail<T(!new)>(groups: seq<seq<T>>, eq: (T, T) -> bool)
    requires Equivalence(eq) && AreDuplicateGroups(groups, eq) && groups != []
    ensures AreDuplicateGroups(groups[1..], eq)
    ensures forall y :: y in Flatten(groups[1..]) ==> !eq(groups[0][0], y)
  {
    var x, others := groups[0][0], groups[1..];
    assert Heads(groups) == [x] + Heads(others);
    NoLaterMatchCons(Heads(groups), eq);
    assert AreDuplicateGroups(others, eq) by {
      forall k, y | 0 <= k < |others| && y in others[k] ensures eq(others[k][0], y) {
        assert others[k] == groups[k + 1];
      }
    }
    forall y | y in Flatten(others) ensures !eq(x, y) {
      var k := FlattenMember(others, y);
      assert Heads(others)[k] == others[k][0];
      assert eq(others[k][0], y);
    }
  }

  /** A group of files equal to its head, followed by files none of which
      equals that head, splits at the group's end. */
  lemma SplitAtGroup<T(!new)>(g: seq<T>, rest: seq<T>, eq: (T, T) -> bool)
    requires g != []
    requires forall y :: y in g ==> eq(g[0], y)
    requires forall y :: y in rest ==> !eq(g[0], y)
    ensures Matches(g + rest, eq, g[0]) == g
    ensures Unmatched(g + rest, eq, g[0]) == rest
  {
    var x := g[0];
    MatchesAll(g, eq, x);
    MatchesNone(rest, eq, x);
    MatchesAppend(g, rest, eq, x);
    UnmatchedAppend(g, rest, eq, x);
    assert g + [] == g;
    assert [] + rest == rest;
  }

  /** `search` on a group of at least two equal files followed by files
      none of which equals the group's head. */
  lemma RegroupStep<T(!new)>(g: seq<T>, rest: seq<T>, others: seq<seq<T>>, eq: (T, T) -> bool)
    requires Reflexive(eq) && |g| >= 2
    requires forall y :: y in g ==> eq(g[0], y)
    requires forall y :: y in rest ==> !eq(g[0], y)
    requires SearchGroups(rest, eq) == others
    ensures SearchGroups(g + rest, eq) == [g] + others
  {
    assert (g + rest)[0] == g[0];
    SplitAtGroup(g, rest, eq);
    SearchUnfold(g + rest, eq);
  }

  /** `search` run on the concatenation of duplicate groups gives back
      exactly those groups. */
  lemma {:induction false} SearchRegroups<T(!new)>(groups: seq<seq<T>>, eq: (T, T) -> bool)
    requires Equivalence(eq) && AreDuplicateGroups(groups, eq)
    ensures SearchGroups(Flatten(groups), eq) == groups
  {
    if groups != [] {
      var g, others := groups[0], groups[1..];
      var rest := Flatten(others);
      assert Flatten(groups) == g + rest;
      DuplicateGroupsTail(groups, eq);
      SearchRegroups(others, eq);
      RegroupStep(g, rest, others, eq);
      assert groups == [g] + others;
    }
  }

  /** Re-running `search` on the files of its own groups reproduces the
      same groups. */
  lemma SearchIdempotent<T(!new)>(s: seq<T>, eq: (T, T) -> bool)
    requires Equivalence(eq)
    ensures SearchGroups(Flatten(SearchGroups(s, eq)), eq) == SearchGroups(s, eq)
  {
    var a := SearchGroups(s, eq);
    SearchGroupsAreClasses(s, eq);
    SearchGroupsDisjoint(s, eq);
    forall k, y | 0 <= k < |a| && y in a[k] ensures eq(a[k][0], y) {
      assert a[k] in a;
    }
    SearchRegroups(a, eq);
  }

  /** The groups of `faster_search` are duplicate groups. */
  lemma FasterGroupsAreDuplicateGroups<T(!new)>(s: seq<T>, eq: (T, T) -> bool)
    requires Equivalence(eq)
    ensures AreDuplicateGroups(FasterGroups(s, eq), eq)
  {
    var b := FasterGroups(s, eq);
    FasterGroupsDisjoint(s, eq);
    FasterGroupsAreClasses(s, eq);
    forall k, y | 0 <= k < |b| && y in b[k] ensures eq(b[k][0], y) {
      assert b[k] in b;
      assert y in multiset(b[k]);
      assert y in Matches(s, eq, b[k][0]);
    }
  }

  /** Reversing the tails of groups twice restores them. */
  lemma ReverseTailsTwice<T>(a: seq<seq<T>>, b: seq<seq<T>>, c: seq<seq<T>>)
    requires |a| == |b| == |c|
    requires forall k :: 0 <= k < |a| ==> |a[k]| > 0 && b[k] == [a[k][0]] + Reverse(a[k][1..])
    requires forall k :: 0 <= k < |b| ==> c[k] == [b[k][0]] + Reverse(b[k][1..])
    ensures c == a
  {
    forall k | 0 <= k < |a| ensures c[k] == a[k] {
      TailReversedTwice(a[k], b[k], c[k]);
    }
  }

  lemma TailReversedTwice<T>(g: seq<T>, h: seq<T>, c: seq<T>)
    requires g != [] && h == [g[0]] + Reverse(g[1..]) && c == [h[0]] + Reverse(h[1..])
    ensures c == g
  {
    assert h[1..] == Reverse(g[1..]);
    ReverseReverse(g[1..]);
    assert g == [g[0]] + g[1..];
  }

  /** Re-running `faster_search` on the files of its own groups reproduces
      the same groups with their copies back in input order: the groups of
      `search`. */
  lemma FasterRegroup<T(!new)>(s: seq<T>, eq: (T, T) -> bool)
    requires Equivalence(eq)
    ensures FasterGroups(Flatten(FasterGroups(s, eq)), eq) == SearchGroups(s, eq)
  {
    var a, b := SearchGroups(s, eq), FasterGroups(s, eq);
    SearchesAgree(s, eq);
    FasterGroupsAreDuplicateGroups(s, eq);
    SearchRegroups(b, eq);
    SearchesAgree(Flatten(b), eq);
    ReverseTailsTwice(a, b, FasterGroups(Flatten(b), eq));
  }
}
