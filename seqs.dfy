/** Sequence helpers shared by the grouping and reporting modules. */
module Sequences {

  /** The elements of `s` in reverse order. */
  function Reverse<T>(s: seq<T>): (r: seq<T>)
    ensures |r| == |s|
    ensures forall i :: 0 <= i < |s| ==> r[i] == s[|s| - 1 - i]
  {
    if s == [] then [] else Reverse(s[1..]) + [s[0]]
  }

  lemma {:induction false} ReverseMultiset<T>(s: seq<T>)
    ensures multiset(Reverse(s)) == multiset(s)
  {
    if s != [] {
      ReverseMultiset(s[1..]);
      assert s == [s[0]] + s[1..];
    }
  }

  /** All groups concatenated, in order. */
  function Flatten<T>(groups: seq<seq<T>>): (r: seq<T>)
    ensures |groups| == 1 ==> r == groups[0]
  {
    if groups == [] then [] else groups[0] + Flatten(groups[1..])
  }

  lemma {:induction false} FlattenAppend<T>(a: seq<seq<T>>, b: seq<seq<T>>)
    ensures Flatten(a + b) == Flatten(a) + Flatten(b)
  {
    if a == [] {
      assert a + b == b;
    } else {
      assert (a + b)[1..] == a[1..] + b;
      FlattenAppend(a[1..], b);
    }
  }

  /** Flattening two group lists whose groups are pairwise permutations
      of each other yields permutations of each other. */
  lemma {:induction false} FlattenPermutation<T>(a: seq<seq<T>>, b: seq<seq<T>>)
    requires |a| == |b|
    requires forall k :: 0 <= k < |a| ==> multiset(a[k]) == multiset(b[k])
    ensures multiset(Flatten(a)) == multiset(Flatten(b))
  {
    if a != [] {
      FlattenPermutation(a[1..], b[1..]);
    }
  }

  /** Every element of the flattened sequence comes from some group. */
  lemma {:induction false} FlattenMember<T>(groups: seq<seq<T>>, x: T) returns (k: nat)
    requires x in Flatten(groups)
    ensures k < |groups| && x in groups[k]
  {
    assert Flatten(groups) == groups[0] + Flatten(groups[1..]);
    if x in groups[0] {
      k := 0;
    } else {
      k := FlattenMember(groups[1..], x);
      k := k + 1;
    }
  }

  lemma {:induction false} ReverseReverse<T>(s: seq<T>)
    ensures Reverse(Reverse(s)) == s
  {
    var r := Reverse(Reverse(s));
    assert |r| == |s|;
    forall i | 0 <= i < |s| ensures r[i] == s[i] {
      assert r[i] == Reverse(s)[|s| - 1 - i];
    }
  }
}
