/**
  The two searches of main.py in the form the program runs them: `search`
  reassigns its local list, `faster_search` pops from the caller's list in
  place. Each is proved to return what the matching function of `Grouping`
  says.
 */
module Finder {
  import opened Sequences
  import opened Grouping

  /** A list of file identifiers that a search may empty in place. */
  class FileList<T> {
    var items: seq<T>

    constructor (files: seq<T>)
      ensures items == files
    {
      items := files;
    }

    /** `list.pop(i)`: removes and returns the element at index `i`; the
        elements after it move down by one place. */
    method Pop(i: nat) returns (x: T)
      requires i < |items|
      modifies this
      ensures x == old(items)[i]
      ensures items == old(items)[..i] + old(items)[i + 1..]
    {
      x := items[i];
      items := items[..i] + items[i + 1..];
    }
  }

  /** Taking apart a list around its element at index `|u|`. */
  lemma Around<T>(u: seq<T>, a: T, v: seq<T>)
    ensures (u + [a] + v)[|u|] == a
    ensures (u + [a] + v)[..|u|] + (u + [a] + v)[|u| + 1..] == u + v
  {
    assert (u + [a] + v)[..|u|] == u;
    assert (u + [a] + v)[|u| + 1..] == v;
  }

  /** Reversing a sequence that starts with `a` puts `a` last. */
  lemma ReverseCons<T>(a: T, u: seq<T>)
    ensures Reverse([a] + u) == Reverse(u) + [a]
  {
    assert ([a] + u)[1..] == u;
  }

  /** One step of the downward scan over `s` at index `i`, from the list
      as it is before the step (the unvisited prefix followed by what is
      left of the visited suffix): the element at `i` is the one compared;
      popping it when it matches, or leaving it when it does not, gives
      the list and the group for the suffix from `i`. */
  lemma ScanStep<T(!new)>(s: seq<T>, i: nat, eq: (T, T) -> bool, x: T)
    requires i < |s|
    ensures var before := s[..i + 1] + Unmatched(s[i + 1..], eq, x);
      && before[i] == s[i]
      && (eq(x, s[i]) ==>
          && before[..i] + before[i + 1..] == s[..i] + Unmatched(s[i..], eq, x)
          && Reverse(Matches(s[i + 1..], eq, x)) + [s[i]] == Reverse(Matches(s[i..], eq, x)))
      && (!eq(x, s[i]) ==>
          && before == s[..i] + Unmatched(s[i..], eq, x)
          && Matches(s[i..], eq, x) == Matches(s[i + 1..], eq, x))
  {
    assert s[i..][1..] == s[i + 1..];
    assert s[..i + 1] == s[..i] + [s[i]];
    var tail := Unmatched(s[i + 1..], eq, x);
    Around(s[..i], s[i], tail);
    if eq(x, s[i]) {
      ReverseCons(s[i], Matches(s[i + 1..], eq, x));
    } else {
      assert Unmatched(s[i..], eq, x) == [s[i]] + tail;
    }
  }

  /** Moving the next group from the groups still to come to the groups
      found so far. */
  lemma Regroup<T>(found: seq<seq<T>>, g: seq<T>, later: seq<seq<T>>)
    ensures found + ([g] + later) == (found + [g]) + later
  {
  }

  /** `search` (main.py:17-40). The caller's list is not changed: the loop
      rebinds a local name to each freshly filtered list. */
  method Search<T(==,!new)>(files: seq<T>, eq: (T, T) -> bool) returns (lol: seq<seq<T>>)
    requires Reflexive(eq)
    ensures lol == SearchGroups(files, eq)
  {
    lol := [];
    var fileList := files;
    while 0 < |fileList|
      invariant lol + SearchGroups(fileList, eq) == SearchGroups(files, eq)
      decreases |fileList|
    {
      var dups := Matches(fileList, eq, fileList[0]);
      var rest := Unmatched(fileList, eq, fileList[0]);
      SearchUnfold(fileList, eq);
      if |dups| > 1 {
        Regroup(lol, dups, SearchGroups(rest, eq));
        lol := lol + [dups];
      } else {
        assert [] + SearchGroups(rest, eq) == SearchGroups(rest, eq);
      }
      fileList := rest;
    }
  }

  /** The body of the outer loop of `faster_search` (main.py:54-63): pops
      the head, then scans the rest from its last index down to 0 and pops
      every element matching the head into the group that starts with it.
      Scanning downwards means a pop never moves an element that is still
      to be visited, so the list keeps the non-matching elements in their
      order. */
  method TakeGroup<T(==,!new)>(fileList: FileList<T>, eq: (T, T) -> bool) returns (dups: seq<T>)
    requires fileList.items != []
    modifies fileList
    ensures var s := old(fileList.items);
      dups == [s[0]] + Reverse(Matches(s[1..], eq, s[0]))
    ensures var s := old(fileList.items);
      fileList.items == Unmatched(s[1..], eq, s[0])
  {
    var name := fileList.Pop(0);
    ghost var rest := fileList.items;
    dups := [name];
    for i := |fileList.items| downto 0
      invariant fileList.items == rest[..i] + Unmatched(rest[i..], eq, name)
      invariant dups == [name] + Reverse(Matches(rest[i..], eq, name))
    {
      ScanStep(rest, i, eq, name);
      if eq(name, fileList.items[i]) {
        var x := fileList.Pop(i);
        dups := dups + [x];
      }
    }
    assert rest[0..] == rest;
  }

  /** `faster_search` (main.py:43-67). Groups are taken from the caller's
      list until it is empty. */
  method FasterSearch<T(==,!new)>(fileList: FileList<T>, eq: (T, T) -> bool) returns (lol: seq<seq<T>>)
    modifies fileList
    ensures fileList.items == []
    ensures lol == FasterGroups(old(fileList.items), eq)
  {
    lol := [];
    while 0 < |fileList.items|
      invariant lol + FasterGroups(fileList.items, eq) == FasterGroups(old(fileList.items), eq)
      decreases |fileList.items|
    {
      FasterUnfold(fileList.items, eq);
      var dups := TakeGroup(fileList, eq);
      if |dups| > 1 {
        Regroup(lol, dups, FasterGroups(fileList.items, eq));
        lol := lol + [dups];
      } else {
        assert [] + FasterGroups(fileList.items, eq) == FasterGroups(fileList.items, eq);
      }
    }
  }
}
