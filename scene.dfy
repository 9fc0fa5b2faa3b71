/** The top level of the scene: two copies of the same keys, one sorted with
    the Lomuto pairing and one with the Hoare pairing. The two runs share no
    array, so the order in which the animation interleaves their steps
    cannot affect either result; they are run one after the other here. */
module Scene {
  import opened SequenceStore
  import Lomuto
  import Hoare

  /** A fresh array holding the keys of input, as the scene's number lists
      are. */
  method Load(input: seq<int>) returns (a: array<int>)
    ensures fresh(a) && a[..] == input
  {
    a := new int[|input|](k requires 0 <= k < |input| => input[k]);
  }

  /** Sorts a fresh copy of input with each scheme, each over its whole
      array; the Hoare copy uses the partition that steps past swapped
      slots, so any keys are accepted and both copies end up alike. */
  method SortBoth(input: seq<int>) returns (lomuto: array<int>, hoare: array<int>)
    ensures lomuto != hoare
    ensures Sorted(lomuto[..]) && multiset(lomuto[..]) == multiset(input)
    ensures lomuto[..] == hoare[..]
  {
    lomuto := Load(input);
    hoare := Load(input);
    assert hoare[0..hoare.Length] == hoare[..];
    Lomuto.Quicksort(lomuto, 0, lomuto.Length - 1);
    assert lomuto[0..lomuto.Length] == lomuto[..];
    Hoare.QuicksortAdvancing(hoare, 0, hoare.Length - 1);
    assert hoare[0..hoare.Length] == hoare[..];
    SortedPermutationUnique(lomuto[..], hoare[..]);
  }

  /** SortBoth with the Hoare partition as the scene writes it, which
      needs distinct keys. */
  method SortBothAsWritten(input: seq<int>) returns (lomuto: array<int>, hoare: array<int>)
    requires Distinct(input)
    ensures lomuto != hoare
    ensures Sorted(lomuto[..]) && multiset(lomuto[..]) == multiset(input)
    ensures lomuto[..] == hoare[..]
  {
    lomuto := Load(input);
    hoare := Load(input);
    assert hoare[0..hoare.Length] == hoare[..];
    Lomuto.Quicksort(lomuto, 0, lomuto.Length - 1);
    assert lomuto[0..lomuto.Length] == lomuto[..];
    Hoare.Quicksort(hoare, 0, hoare.Length - 1);
    assert hoare[0..hoare.Length] == hoare[..];
    SortedPermutationUnique(lomuto[..], hoare[..]);
  }

  /** The run the scene performs, with the partitions as the scene writes
      them: both sort [4, 2, 8, 3, 1, 5, 7, 6] into [1, 2, 3, 4, 5, 6, 7, 8].
      Its keys are distinct, which the scene's Hoare partition needs. */
  method Run() returns (lomuto: array<int>, hoare: array<int>)
    ensures lomuto != hoare
    ensures lomuto[..] == [1, 2, 3, 4, 5, 6, 7, 8]
    ensures hoare[..] == [1, 2, 3, 4, 5, 6, 7, 8]
  {
    var input := [4, 2, 8, 3, 1, 5, 7, 6];
    ExampleKeys();
    InOrder();
    DistinctPermuted([1, 2, 3, 4, 5, 6, 7, 8], input);
    lomuto, hoare := SortBothAsWritten(input);
    SortedPermutationUnique(lomuto[..], [1, 2, 3, 4, 5, 6, 7, 8]);
  }

  /** The scene's keys are 1..8, each once. */
  lemma ExampleKeys()
    ensures multiset([4, 2, 8, 3, 1, 5, 7, 6]) == multiset([1, 2, 3, 4, 5, 6, 7, 8])
  {
    InputKeys();
    OrderedKeys();
    SameKeys();
  }

  // The three steps of ExampleKeys, kept apart so that each is a small
  // question for the solver.
  lemma InputKeys()
    ensures multiset([4, 2, 8, 3, 1, 5, 7, 6]) == multiset{4, 2, 8, 3, 1, 5, 7, 6}
  {
  }

  lemma OrderedKeys()
    ensures multiset([1, 2, 3, 4, 5, 6, 7, 8]) == multiset{1, 2, 3, 4, 5, 6, 7, 8}
  {
  }

  lemma SameKeys()
    ensures multiset{4, 2, 8, 3, 1, 5, 7, 6} == multiset{1, 2, 3, 4, 5, 6, 7, 8}
  {
  }

  /** [1, 2, 3, 4, 5, 6, 7, 8] is sorted and has distinct keys. */
  lemma InOrder()
    ensures Sorted([1, 2, 3, 4, 5, 6, 7, 8]) && Distinct([1, 2, 3, 4, 5, 6, 7, 8])
  {
    var s := [1, 2, 3, 4, 5, 6, 7, 8];
    assert forall i :: 0 <= i < |s| ==> s[i] == i + 1;
  }
}
