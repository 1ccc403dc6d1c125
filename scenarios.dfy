/** Worked examples of the searches and the report on small inputs. */
module Scenarios {
  import opened Sequences
  import opened Grouping
  import opened Reporting

  /** File contents by name: C holds "world", every other file "hello". */
  function Content(f: string): string
  {
    if f == "C" then "world" else "hello"
  }

  /** Byte-for-byte comparison of two files' contents. */
  function SameContent(x: string, y: string): bool
  {
    Content(x) == Content(y)
  }

  /** How A relates to the rest of the list: B and D match it, C does not. */
  lemma SplitOnA()
    ensures Matches(["B", "C", "D"], SameContent, "A") == ["B", "D"]
    ensures Unmatched(["B", "C", "D"], SameContent, "A") == ["C"]
    ensures Matches(["A", "B", "C", "D"], SameContent, "A") == ["A", "B", "D"]
    ensures Unmatched(["A", "B", "C", "D"], SameContent, "A") == ["C"]
  {
    var s := ["A", "B", "C", "D"];
    assert s[1..] == ["B", "C", "D"];
    assert s[1..][1..] == ["C", "D"];
    assert s[1..][1..][1..] == ["D"];
    assert s[1..][1..][1..][1..] == [];
    assert Matches(["D"], SameContent, "A") == ["D"];
    assert Unmatched(["D"], SameContent, "A") == [];
    assert Matches(["C", "D"], SameContent, "A") == ["D"];
    assert Unmatched(["C", "D"], SameContent, "A") == ["C"];
  }

  /** A, B and D hold the same content and C another: `search` returns the
      one group A, B, D in list order. */
  lemma SearchHelloWorld()
    ensures SearchGroups(["A", "B", "C", "D"], SameContent) == [["A", "B", "D"]]
  {
    assert Reflexive(SameContent);
    SplitOnA();
    SearchUnfold(["A", "B", "C", "D"], SameContent);
    SearchUnfold(["C"], SameContent);
    assert Matches(["C"], SameContent, "C") == ["C"];
    assert Unmatched(["C"], SameContent, "C") == [];
  }

  /** On the same files `faster_search` returns the same group with the
      head first and the other members in descending index order. */
  lemma FasterHelloWorld()
    ensures FasterGroups(["A", "B", "C", "D"], SameContent) == [["A", "D", "B"]]
  {
    SplitOnA();
    assert ["A", "B", "C", "D"][1..] == ["B", "C", "D"];
    FasterUnfold(["A", "B", "C", "D"], SameContent);
    FasterUnfold(["C"], SameContent);
    assert ["C"][1..] == [];
    assert Unmatched([], SameContent, "C") == [];
    assert FasterGroups(["C"], SameContent) == [];
    assert Reverse(["B", "D"]) == ["D", "B"];
    assert ["A"] + Reverse(Matches(["B", "C", "D"], SameContent, "A")) == ["A", "D", "B"];
    assert [["A", "D", "B"]] + FasterGroups(["C"], SameContent) == [["A", "D", "B"]];
  }

  /** Sizes in bytes: E and F are 100 bytes, every other file 5. */
  function Size(f: string): nat
  {
    if f == "E" || f == "F" then 100 else 5
  }

  /** The two maxima of the report can select different groups: A, B, D
      has the most members, E, F frees the most space (100 bytes against
      10). */
  lemma MaximaDiverge()
    ensures Report([["A", "B", "D"], ["E", "F"]], Size)
      == Success(Summary("A", ["B", "D"], "E", ["F"], 100))
  {
    var lol := [["A", "B", "D"], ["E", "F"]];
    assert Lengths(lol) == [3, 2];
    assert Sum(["F"], Size) == 100;
    assert Sum(["A", "B", "D"], Size) == 15;
    assert Sum(["E", "F"], Size) == 200;
    assert Totals(lol, Size) == [15, 200];
    assert FirstMax([3, 2]) == 0;
    assert FirstMax([15, 200]) == 1;
  }

  /** With no groups `max` raises `ValueError` (main.py:81), which the
      model reports as `NoGroups`. */
  lemma NothingToReport()
    ensures Report([], Size) == Failure(NoGroups)
  {
  }
}
