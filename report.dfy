/**
  The selection arithmetic of `report` (main.py:70-107): which group has the
  most members, which group takes the most disk space, and how much space
  deleting that group's copies would free. Printing is not modelled; the
  outcome is the data the report prints, or the error Python raises.
 */
module Reporting {
  import opened Sequences
  import opened Grouping

  /** The exceptions `report` can raise: `max` of an empty list (ValueError),
      and indexing `[0]` of an empty selected group (IndexError). */
  datatype ReportError = NoGroups | EmptyGroup

  /** What the report prints: the representative of the group with the most
      members and its copies, the representative of the group with the
      largest total size and its copies, and the space those copies take. */
  datatype Summary<T> = Summary(
    most: T, mostCopies: seq<T>,
    heaviest: T, heaviestCopies: seq<T>,
    recoverable: nat)

  datatype Outcome<T> = Success(summary: Summary<T>) | Failure(error: ReportError)

  /** Total size of a group, `sum(getsize(i) for i in g)`. */
  function Sum<T>(g: seq<T>, size: T -> nat): nat
  {
    if g == [] then 0 else size(g[0]) + Sum(g[1..], size)
  }

  lemma {:induction false} SumAppend<T>(a: seq<T>, b: seq<T>, size: T -> nat)
    ensures Sum(a + b, size) == Sum(a, size) + Sum(b, size)
  {
    if a == [] {
      assert a + b == b;
    } else {
      assert (a + b)[1..] == a[1..] + b;
      SumAppend(a[1..], b, size);
    }
  }

  /** Taking the member at index `j` out of a group removes its size from
      the total. */
  lemma SumRemove<T>(b: seq<T>, j: nat, size: T -> nat)
    requires j < |b|
    ensures Sum(b, size) == size(b[j]) + Sum(b[..j] + b[j + 1..], size)
  {
    var u, v := b[..j], b[j + 1..];
    assert b == (u + [b[j]]) + v;
    assert Sum([b[j]], size) == size(b[j]) by {
      assert [b[j]][1..] == [];
    }
    SumAppend(u + [b[j]], v, size);
    SumAppend(u, [b[j]], size);
    SumAppend(u, v, size);
  }

  /** Removing the first member of `a` and an equal member of `b` keeps
      the two groups permutations of each other. */
  lemma RemoveBoth<T>(a: seq<T>, b: seq<T>, j: nat)
    requires a != [] && j < |b| && b[j] == a[0] && multiset(a) == multiset(b)
    ensures multiset(a[1..]) == multiset(b[..j] + b[j + 1..])
  {
    var x := a[0];
    var left, right := multiset(b[..j]), multiset(b[j + 1..]);
    assert multiset(a) == multiset{x} + multiset(a[1..]) by {
      assert a == [x] + a[1..];
    }
    assert multiset(b) == (left + multiset{x}) + right by {
      assert b == b[..j] + [x] + b[j + 1..];
    }
    assert (left + multiset{x}) + right == multiset{x} + (left + right);
    Cancel(x, multiset(a[1..]), left + right);
  }

  /** One copy of `x` can be taken from both sides of an equation. */
  lemma Cancel<T>(x: T, p: multiset<T>, q: multiset<T>)
    requires multiset{x} + p == multiset{x} + q
    ensures p == q
  {
    assert p == (multiset{x} + p) - multiset{x};
  }

  /** An index at which `x` occurs in `b`. */
  lemma IndexOf<T>(b: seq<T>, x: T) returns (j: nat)
    requires x in b
    ensures j < |b| && b[j] == x
  {
    j :| 0 <= j < |b| && b[j] == x;
  }

  /** The total size does not depend on the order of the members: the
      report sums the sorted copies, which is the same as summing them in
      group order. */
  lemma {:induction false} SumPermutation<T>(a: seq<T>, b: seq<T>, size: T -> nat)
    requires multiset(a) == multiset(b)
    ensures Sum(a, size) == Sum(b, size)
  {
    if a != [] {
      var x := a[0];
      assert x in multiset(b) by {
        assert x in a;
      }
      var j := IndexOf(b, x);
      RemoveBoth(a, b, j);
      SumRemove(b, j, size);
      SumPermutation(a[1..], b[..j] + b[j + 1..], size);
    }
  }

  /** Index `i` holds the first maximum of `keys`: what Python's `max`
      returns, since it replaces its candidate only on a strictly larger key. */
  ghost predicate FirstMaximum(keys: seq<nat>, i: int)
  {
    && 0 <= i < |keys|
    && (forall j :: 0 <= j < |keys| ==> keys[j] <= keys[i])
    && (forall j :: 0 <= j < i ==> keys[j] < keys[i])
  }

  /** No two indices are both the first maximum of the same keys. */
  lemma FirstMaxIsOnly(keys: seq<nat>)
    requires keys != []
    ensures forall i :: FirstMaximum(keys, i) <==> i == FirstMax(keys)
  {
  }

  /** `max(range(len(keys)), key=keys.__getitem__)`: a left-to-right scan
      that keeps the current best and replaces it only by a strictly larger
      key. */
  function FirstMax(keys: seq<nat>): (i: nat)
    requires keys != []
    ensures FirstMaximum(keys, i)
  {
    if |keys| == 1 then 0
    else
      var best := FirstMax(keys[..|keys| - 1]);
      if keys[|keys| - 1] > keys[best] then |keys| - 1 else best
  }

  /** The key `len(x)` of each group. */
  function Lengths<T>(lol: seq<seq<T>>): (r: seq<nat>)
    ensures |r| == |lol|
    ensures forall k :: 0 <= k < |lol| ==> r[k] == |lol[k]|
  {
    seq(|lol|, k requires 0 <= k < |lol| => |lol[k]|)
  }

  /** The key `sum(getsize(i) for i in x)` of each group. */
  function Totals<T>(lol: seq<seq<T>>, size: T -> nat): (r: seq<nat>)
    ensures |r| == |lol|
    ensures forall k :: 0 <= k < |lol| ==> r[k] == Sum(lol[k], size)
  {
    seq(|lol|, k requires 0 <= k < |lol| => Sum(lol[k], size))
  }

  /** `report` (main.py:70-107) without its output: the group with the most
      members (first such group on a tie) gives the representative and its
      copies; the group with the largest total size (first such on a tie)
      gives the second representative, its copies and the space they take. */
  function Report<T>(lol: seq<seq<T>>, size: T -> nat): (r: Outcome<T>)
    ensures lol == [] <==> r == Failure(NoGroups)
    ensures r.Failure? ==> lol == [] || [] in lol
    ensures lol != [] && [] !in lol ==> r.Success?
    ensures lol != [] ==>
      (r.Success? <==>
        forall i :: FirstMaximum(Lengths(lol), i) || FirstMaximum(Totals(lol, size), i) ==> lol[i] != [])
    ensures r.Success? ==>
      exists i :: FirstMaximum(Lengths(lol), i) && lol[i] == [r.summary.most] + r.summary.mostCopies
    ensures r.Success? ==>
      exists i :: FirstMaximum(Totals(lol, size), i) && lol[i] == [r.summary.heaviest] + r.summary.heaviestCopies
    ensures r.Success? ==> r.summary.recoverable == Sum(r.summary.heaviestCopies, size)
  {
    if lol == [] then Failure(NoGroups)
    else
      FirstMaxIsOnly(Lengths(lol));
      FirstMaxIsOnly(Totals(lol, size));
      var maximum := lol[FirstMax(Lengths(lol))];
      var heavy := lol[FirstMax(Totals(lol, size))];
      if maximum == [] || heavy == [] then Failure(EmptyGroup)
      else
        assert maximum == [maximum[0]] + maximum[1..];
        assert heavy == [heavy[0]] + heavy[1..];
        Success(Summary(maximum[0], maximum[1..], heavy[0], heavy[1..], Sum(heavy[1..], size)))
  }

  /** No group has more members than the selected one, and none takes more
      space than the selected heaviest group: deleting its copies frees the
      most space any group can free after keeping one copy of the heaviest. */
  lemma ReportMaxima<T>(lol: seq<seq<T>>, size: T -> nat)
    requires Report(lol, size).Success?
    ensures var s := Report(lol, size).summary;
      forall g :: g in lol ==> |g| <= 1 + |s.mostCopies| && Sum(g, size) <= size(s.heaviest) + s.recoverable
  {
    var s := Report(lol, size).summary;
    var i :| FirstMaximum(Lengths(lol), i) && lol[i] == [s.most] + s.mostCopies;
    var h :| FirstMaximum(Totals(lol, size), h) && lol[h] == [s.heaviest] + s.heaviestCopies;
    forall g | g in lol
      ensures |g| <= 1 + |s.mostCopies| && Sum(g, size) <= size(s.heaviest) + s.recoverable
    {
      var j :| 0 <= j < |lol| && lol[j] == g;
      assert Lengths(lol)[j] <= Lengths(lol)[i];
      assert Totals(lol, size)[j] <= Totals(lol, size)[h];
    }
  }

  /** Groups that `search` returns always let the report succeed unless
      there are none: every group has at least two members. */
  lemma ReportOnSearch<T(!new)>(s: seq<T>, eq: (T, T) -> bool, size: T -> nat)
    requires Reflexive(eq)
    ensures var r := Report(SearchGroups(s, eq), size);
      (r.Success? <==> SearchGroups(s, eq) != [])
      && (r.Success? ==> |r.summary.mostCopies| >= 1 && |r.summary.heaviestCopies| >= 1)
  {
    var lol := SearchGroups(s, eq);
    assert forall g :: g in lol ==> |g| >= 2;
    var r := Report(lol, size);
    if r.Success? {
      var i :| FirstMaximum(Lengths(lol), i) && lol[i] == [r.summary.most] + r.summary.mostCopies;
      var h :| FirstMaximum(Totals(lol, size), h) && lol[h] == [r.summary.heaviest] + r.summary.heaviestCopies;
      assert |lol[i]| >= 2 && |lol[h]| >= 2;
    }
  }

  /** Two group lists that agree group by group on sizes, totals,
      representatives and copies up to order get the same report, up to
      the order of the copies. */
  lemma ReportCongruent<T>(a: seq<seq<T>>, b: seq<seq<T>>, size: T -> nat)
    requires Lengths(a) == Lengths(b) && Totals(a, size) == Totals(b, size)
    requires forall k :: 0 <= k < |a| && a[k] != [] ==>
      a[k][0] == b[k][0] && multiset(a[k][1..]) == multiset(b[k][1..])
    ensures var ra := Report(a, size);
      var rb := Report(b, size);
      && ra.Success? == rb.Success?
      && (ra.Success? ==>
          && ra.summary.most == rb.summary.most
          && multiset(ra.summary.mostCopies) == multiset(rb.summary.mostCopies)
          && ra.summary.heaviest == rb.summary.heaviest
          && multiset(ra.summary.heaviestCopies) == multiset(rb.summary.heaviestCopies)
          && ra.summary.recoverable == rb.summary.recoverable)
  {
    assert |a| == |Lengths(a)| == |b|;
    if a != [] {
      var i := FirstMax(Lengths(a));
      var h := FirstMax(Totals(a, size));
      assert |a[i]| == |b[i]| && |a[h]| == |b[h]|;
      var ra := Report(a, size);
      var rb := Report(b, size);
      if ra.Success? {
        SumPermutation(a[h][1..], b[h][1..], size);
      }
    }
  }

  /** The report does not depend on which search produced its input: on the
      groups of `faster_search` it selects the same representatives, the
      same copies up to order, and the same recoverable space as on the
      groups of `search`. */
  lemma ReportsAgree<T(!new)>(s: seq<T>, eq: (T, T) -> bool, size: T -> nat)
    requires Reflexive(eq)
    ensures var a := Report(SearchGroups(s, eq), size);
      var b := Report(FasterGroups(s, eq), size);
      && a.Success? == b.Success?
      && (a.Success? ==>
          && a.summary.most == b.summary.most
          && multiset(a.summary.mostCopies) == multiset(b.summary.mostCopies)
          && a.summary.heaviest == b.summary.heaviest
          && multiset(a.summary.heaviestCopies) == multiset(b.summary.heaviestCopies)
          && a.summary.recoverable == b.summary.recoverable)
  {
    var a := SearchGroups(s, eq);
    var b := FasterGroups(s, eq);
    SearchesAgree(s, eq);
    forall k | 0 <= k < |a|
      ensures |a[k]| == |b[k]| && Sum(a[k], size) == Sum(b[k], size)
      ensures a[k][0] == b[k][0] && multiset(a[k][1..]) == multiset(b[k][1..])
    {
      ReverseMultiset(a[k][1..]);
      assert b[k][1..] == Reverse(a[k][1..]);
      assert a[k] == [a[k][0]] + a[k][1..];
      assert multiset(a[k]) == multiset(b[k]);
      SumPermutation(a[k], b[k], size);
    }
    assert Lengths(a) == Lengths(b);
    assert Totals(a, size) == Totals(b, size);
    ReportCongruent(a, b, size);
  }
}
