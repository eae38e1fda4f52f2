/** The repetition check shared by the kernel's validation and its object decoder. */
module Duplicates {
  import opened Wrappers
  import opened Sequences
  import opened Ordering

  /** The first of two equal neighbours. */
  function FirstRepeated(sorted: seq<string>): Option<string> {
    if |sorted| < 2 then None
    else if sorted[0] == sorted[1] then Some(sorted[0])
    else FirstRepeated(sorted[1..])
  }

  /** The least value that occurs twice: sorting makes equal values neighbours. */
  function Duplicate(values: seq<string>): Option<string> {
    FirstRepeated(Sort(StringLess, values))
  }

  lemma {:induction false} FirstRepeatedMeaning(sorted: seq<string>)
    requires Sorted(StringLess, sorted)
    ensures FirstRepeated(sorted).None? <==> Distinct(sorted)
  {
    if |sorted| >= 2 {
      StringOrder();
      FirstRepeatedMeaning(sorted[1..]);
      if sorted[0] != sorted[1] {
        assert StringLess(sorted[0], sorted[1]);
        assert sorted[0] !in sorted[1..];
        if Distinct(sorted) {
          assert forall i, j :: 0 <= i < j < |sorted[1..]| ==>
                   sorted[1..][i] == sorted[i + 1] && sorted[1..][j] == sorted[j + 1];
        }
      }
    }
  }

  lemma DuplicateMeaning(values: seq<string>)
    ensures Duplicate(values).None? <==> Distinct(values)
  {
    StringOrder();
    var sorted := Sort(StringLess, values);
    SortSorted(StringLess, values);
    FirstRepeatedMeaning(sorted);
    if Distinct(values) {
      PermutationDistinct(values, sorted);
    }
    if Distinct(sorted) {
      PermutationDistinct(sorted, values);
    }
  }

  lemma {:induction false} FirstRepeatedTwice(sorted: seq<string>)
    requires FirstRepeated(sorted).Some?
    ensures multiset(sorted)[FirstRepeated(sorted).value] >= 2
  {
    if sorted[0] == sorted[1] {
      RepeatedCount(sorted, 0, 1);
    } else {
      FirstRepeatedTwice(sorted[1..]);
      assert sorted == [sorted[0]] + sorted[1..];
    }
  }

  lemma DuplicateTwice(values: seq<string>)
    requires Duplicate(values).Some?
    ensures multiset(values)[Duplicate(values).value] >= 2
  {
    FirstRepeatedTwice(Sort(StringLess, values));
  }
}
