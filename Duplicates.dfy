/**
 * The `/duplicates` handler: one pass over the numbers with a `seen` set
 * and a `duplicates` set.  The duplicates set is an insertion-ordered set
 * (it is turned into an array in insertion order), so it is kept here as a
 * sequence without repeats to which a value is appended only if absent.
 * The random input is a parameter.
 */
module Duplicates {

  predicate NoRepeats(s: seq<int>) {
    forall i, j :: 0 <= i < j < |s| ==> s[i] != s[j]
  }

  /**
   * Reference definition: the values that occur at least twice, each once,
   * in the order of their second occurrence.
   */
  function DuplicatesInOrder(s: seq<int>): seq<int> {
    if s == [] then []
    else
      var init, x := s[..|s| - 1], s[|s| - 1];
      var d := DuplicatesInOrder(init);
      if x in init && x !in d then d + [x] else d
  }

  /** The reference lists exactly the values occurring at least twice. */
  lemma {:induction false} DuplicatesInOrderMembers(s: seq<int>, x: int)
    ensures x in DuplicatesInOrder(s) <==> multiset(s)[x] >= 2
  {
    if s != [] {
      var init, y := s[..|s| - 1], s[|s| - 1];
      assert s == init + [y];
      assert multiset(s) == multiset(init) + multiset{y};
      DuplicatesInOrderMembers(init, x);
      assert y in init <==> multiset(init)[y] >= 1;
    }
  }

  /** The reference lists no value twice. */
  lemma {:induction false} DuplicatesInOrderNoRepeats(s: seq<int>)
    ensures NoRepeats(DuplicatesInOrder(s))
  {
    if s != [] {
      DuplicatesInOrderNoRepeats(s[..|s| - 1]);
    }
  }

  /** The single pass with the two sets, as the handler runs it. */
  method FindDuplicates(numbers: seq<int>) returns (duplicates: seq<int>)
    ensures duplicates == DuplicatesInOrder(numbers)
    ensures forall x :: x in duplicates <==> multiset(numbers)[x] >= 2
    ensures NoRepeats(duplicates)
  {
    var seen: set<int> := {};
    duplicates := [];
    for i := 0 to |numbers|
      invariant forall x :: x in seen <==> x in numbers[..i]
      invariant duplicates == DuplicatesInOrder(numbers[..i])
      invariant forall x :: x in duplicates ==> x in seen
    {
      var num := numbers[i];
      assert numbers[..i + 1][..i] == numbers[..i];
      if num in seen {
        // adding a value already in an insertion-ordered set leaves it unchanged
        if num !in duplicates {
          duplicates := duplicates + [num];
        }
      } else {
        seen := seen + {num};
      }
    }
    assert numbers[..|numbers|] == numbers;
    forall x ensures x in duplicates <==> multiset(numbers)[x] >= 2 {
      DuplicatesInOrderMembers(numbers, x);
    }
    DuplicatesInOrderNoRepeats(numbers);
  }

  /** A planted duplicate set is found exactly, in order of second occurrence. */
  lemma PlantedDuplicates()
    ensures DuplicatesInOrder([5, 1, 7, 1, 5, 5, 9]) == [1, 5]
  {
    assert [5, 1, 7, 1, 5, 5, 9][..6] == [5, 1, 7, 1, 5, 5];
    assert [5, 1, 7, 1, 5, 5][..5] == [5, 1, 7, 1, 5];
    assert [5, 1, 7, 1, 5][..4] == [5, 1, 7, 1];
    assert [5, 1, 7, 1][..3] == [5, 1, 7];
    assert [5, 1, 7][..2] == [5, 1];
    assert [5, 1][..1] == [5];
  }
}
