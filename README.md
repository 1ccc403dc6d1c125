# Duplicate file finder — a Dafny model

`main.py` finds files with identical content. It takes a list of file
identifiers and a comparison `compare(a, b)` that says whether two files
hold the same bytes. It groups the duplicates in one of two ways:

- `search` repeatedly filters the list. It takes the group of files matching
  the head, then keeps only the files that do not match it.
- `faster_search` pops the head of the caller's list. It then scans the rest
  from the last index down to 0 and pops every match into the group.

Groups with a single member are dropped. `report` then selects two groups.
The first is the group with the most members. The second is the group with
the largest total size, together with the space its copies take (all
members but the first).

The model has five modules:

- `Sequences` (seqs.dfy): reversal and flattening of sequences.
- `Grouping` (grouping.dfy): the two searches as recursive functions
  (`SearchGroups`, `FasterGroups`) and their properties. These are partition
  soundness and completeness, no loss or duplication, order within a group,
  agreement of the two variants, and idempotence.
- `Finder` (finder.dfy): the two searches as the program runs them. `Search`
  is a loop that rebinds a local list. `FasterSearch` pops from a `FileList`
  object in place; `TakeGroup` is its loop body with the descending inner
  scan. Each search is proved to compute
  the function of `Grouping`.
- `Reporting` (report.dfy): the selection arithmetic of `report` and the
  errors Python raises.
- `Scenarios` (scenarios.dfy): worked examples on concrete files.

File identifiers are a type parameter. `compare` is a parameter
`eq: (T, T) -> bool` and `getsize` a parameter `size: T -> nat`.

## Model

| member | source | states |
|---|---|---|
| Grouping.Matches | main.py:32 | the files equal to `x`, in list order: a file is in the result exactly when it is in the list and matches `x`; never longer than the list |
| Grouping.Unmatched | main.py:38 | the files not equal to `x`: a file is in the result exactly when it is in the list and does not match `x`; its length and the matches' length add up to the list's length |
| Grouping.SearchGroups | main.py:17-40 | `search` returns only groups of at least two files; it is defined only for a reflexive `compare`, which is what makes the list shrink |
| Grouping.FasterGroups | main.py:43-67 | `faster_search` returns only groups of at least two files, for any `compare` |
| Grouping.SearchUnfold | main.py:30-38 | for a reflexive `compare`, the list left after one iteration of `search` (the non-matches of the head) is strictly shorter than the list, because the head matches itself; this is why `search` terminates |
| Grouping.SearchStallsWithoutReflexivity | main.py:38 | if the head does not match itself, it is still the first file after one rebuild, and every later rebuild leaves the list unchanged, so `search` never ends |
| Grouping.SearchGroupsAreClasses | main.py:32-35 | for an equivalence, every group of `search` starts with an input file and is exactly the input's files equal to it, in input order |
| Grouping.SearchHeadsFromInput | main.py:32 | the first member of every group of `search` is a file of the input |
| Grouping.SearchGroupsDisjoint | main.py:32-38 | for an equivalence, no group's first member is equal to a later group's first member, so no file is in two groups |
| Grouping.SearchComplete | main.py:17-40 | for an equivalence, a file is in some group of `search` if and only if it is in the input and has at least two equal files there |
| Grouping.SearchPermutation | main.py:30-38 | for an equivalence, the files of the groups of `search` plus the files without a duplicate are a permutation of the input |
| Grouping.SearchEmptyIff | main.py:34-35 | `search` returns no group exactly when no file matches a later file, so an empty or all-unique input gives `[]` |
| Grouping.FasterEmptyIff | main.py:64-65 | `faster_search` returns no group exactly when no file matches a later file, for any `compare` |
| Grouping.FasterGroupsAreClasses | main.py:55-63 | for an equivalence, every group of `faster_search` starts with an input file, holds exactly the files equal to it, and lists the others in descending input order after it |
| Grouping.FasterGroupsDisjoint | main.py:55-63 | for an equivalence, no two groups of `faster_search` have equal first members, so no file is in two groups |
| Grouping.FasterComplete | main.py:43-67 | for an equivalence, a file is in some group of `faster_search` if and only if it is in the input and has at least two equal files there |
| Grouping.FasterPermutation | main.py:55-63 | for an equivalence, the files of the groups of `faster_search` plus the files without a duplicate are a permutation of the input |
| Grouping.SearchesAgree | main.py:17-67 | the two searches return the same number of groups; each group of `faster_search` is the matching group of `search` with the same head and the rest reversed |
| Grouping.SearchesAgreeAsMultisets | main.py:17-67 | corresponding groups of the two searches have the same heads and hold the same files |
| Grouping.SearchRegroups | main.py:17-40 | `search` on the concatenation of duplicate groups gives back exactly those groups |
| Grouping.SearchIdempotent | main.py:17-40 | for an equivalence, `search` on the files of its own groups returns the same groups |
| Grouping.FasterGroupsAreDuplicateGroups | main.py:43-67 | for an equivalence, the groups of `faster_search` have at least two equal files each and no two of them hold equal files |
| Grouping.FasterRegroup | main.py:43-67 | for an equivalence, `faster_search` on the files of its own groups returns the groups of `search` on the original input |
| Finder.FileList.Pop | main.py:63 | `list.pop(i)` on a valid index returns the element at `i` and leaves the elements before and after it in order |
| Finder.Search | main.py:17-40 | the loop returns exactly `SearchGroups` of its input |
| Finder.ScanStep | main.py:59-63 | at index `i` of the scan the file either joins the group, when it matches, or stays in the list |
| Finder.TakeGroup | main.py:54-63 | one iteration of the outer loop pops the head and returns it followed by its matches in descending index order, and leaves exactly the non-matches of the head in the list in their original order; every index it pops is in range |
| Finder.FasterSearch | main.py:43-67 | the loop returns exactly `FasterGroups` of the caller's list and leaves that list empty |
| Reporting.SumAppend | main.py:94-98 | the total size `sum(getsize(i) for i in x)` of two lists one after the other is the sum of their totals |
| Reporting.Lengths | main.py:81 | the key `len(x)` of `max`: one entry per group, equal to that group's number of members |
| Reporting.Totals | main.py:94 | the key of the second `max`: one entry per group, equal to that group's total size |
| Reporting.SumPermutation | main.py:96-98 | the total size of a list of files does not depend on their order, so summing the sorted copies equals summing them in group order |
| Reporting.FirstMax | main.py:81 | `max` with a key returns an index holding a largest key and no earlier index holds one as large |
| Reporting.Report | main.py:70-107 | fails with `NoGroups` exactly when there are no groups; otherwise succeeds exactly when both the first longest group and the first group of largest total size are non-empty (so it succeeds whenever no group is empty); on success the first representative and its copies make up the first longest group, the second representative and its copies make up the first group of largest total size, and the recoverable space is the total size of those copies |
| Reporting.ReportMaxima | main.py:81-98 | on success, no group has more members than the first selection, and no group's total size exceeds the second representative's size plus the recoverable space |
| Reporting.ReportOnSearch | main.py:81-83 | on the groups of `search` the report succeeds exactly when there is a group, and then both selections have at least one copy |
| Reporting.ReportCongruent | main.py:81-98 | group lists with equal sizes, totals, heads and copies up to order give the same report up to the order of the copies |
| Reporting.ReportsAgree | main.py:70-98 | on the groups of `search` and of `faster_search` the report selects the same representatives, the same copies up to order and the same recoverable space |
| Scenarios.SearchHelloWorld | main.py:17-40 | with A, B, D holding "hello" and C "world", `search` returns the single group A, B, D |
| Scenarios.FasterHelloWorld | main.py:43-67 | on the same files `faster_search` returns the single group A, D, B |
| Scenarios.MaximaDiverge | main.py:81-98 | for groups A, B, D of 5 bytes each and E, F of 100 bytes each, the group with the most members is A, B, D, while E, F frees the most space (100 bytes) |
| Scenarios.NothingToReport | main.py:81 | the report on no groups fails with `NoGroups` |

## Left out

- `all_files` and `compare` come from `p1utils`, which is not part of this model. The file list is an input sequence and `compare` a function parameter. The partition lemmas require it to be an equivalence relation.
- `getsize` is a filesystem call. It is a size function `T -> nat` parameter.
- Everything `report` prints, the string formatting, and the `__main__` block with its path setup and wall-clock timing are not modelled.
- Reporting.Report: the copies are kept in group order, not in the lexicographic order `sorted` gives them for display. `Reporting.SumPermutation` shows that the recoverable space does not depend on this order.
- Reporting.Report: the two `IndexError`s (first member of an empty longest group, first member of an empty heaviest group) are one `EmptyGroup` failure. Output printed before an exception is not modelled.
- Reporting.Report: on no groups `max` raises `ValueError`, and the model fails with `NoGroups`. A caller might prefer a "no duplicates" message, but the code has none, and the model follows the code.
- Finder.FileList.Pop: the `IndexError` of `pop` on an index out of range is a precondition. `Finder.TakeGroup` and `Finder.FasterSearch` prove they never pop out of range.
- Grouping.SearchGroups: requires `compare` to be reflexive on every value. The loop never ends once a head does not match itself (`Grouping.SearchStallsWithoutReflexivity`). The requires is stronger than that: it also excludes lists where only files that never become a head fail to match themselves, and `search` ends on those. The real `compare` is a byte comparison and is reflexive.
- Finder.Search: requires the same reflexivity as `Grouping.SearchGroups`, because a loop that may run forever cannot be proved to meet any postcondition.
