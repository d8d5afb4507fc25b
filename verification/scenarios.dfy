/** The checks of the test driver main.cpp, restated over `Set<int>` with
    the `equals_int` functor and proved for the model. */
module Scenarios {
  import opened EqualityStrategy
  import opened Membership
  import opened Outcomes
  import opened LinkedSet
  import opened SetCursor
  import opened Combinators

  /** The functor `equals_int`. */
  const IntEq: (int, int) -> bool := (x: int, y: int) => x == y

  lemma IntEqIsEquivalence()
    ensures Equivalence(IntEq)
  {
  }

  /** The predicate `is_even`. */
  function IsEven(x: int): bool {
    x % 2 == 0
  }

  /** The values `0, 1, ..., n - 1`, as added by the test loops. */
  function Upto(n: nat): (r: seq<int>)
    ensures |r| == n
    ensures forall i :: 0 <= i < n ==> r[i] == i
  {
    seq(n, i => i)
  }

  /** Distinct integers are unequal under `equals_int`. */
  lemma UptoIsUnique(n: nat)
    ensures Unique(IntEq, Upto(n))
  {
  }

  /** Half of `0 .. 2n - 1` is even. */
  lemma {:induction false} EvensBelow(n: nat)
    ensures |Filter(Upto(2 * n), IsEven)| == n
    decreases n
  {
    if n > 0 {
      EvensBelow(n - 1);
      var lower := Upto(2 * (n - 1));
      assert Upto(2 * n) == lower + [2 * n - 2, 2 * n - 1];
      var top := [2 * n - 2, 2 * n - 1];
      assert Filter(top, IsEven) == [2 * n - 2] by {
        assert IsEven(2 * n - 2) && !IsEven(2 * n - 1);
        assert Filter(top[1..][1..], IsEven) == [];
        assert Filter(top[1..], IsEven) == [];
      }
      FilterConcat(lower, top, IsEven);
    }
  }

  /** `setInt` holds `0 .. 2n - 1` and `filter_out(setInt, is_even)` has `n`
      values; the test uses `n = 50`. */
  lemma FilterEvensHalves(n: nat)
    ensures Size(FilterOut(IntEq, FromRange(IntEq, Upto(2 * n)), IsEven)) == n
  {
    UptoIsUnique(2 * n);
    EvensBelow(n);
  }

  lemma FilterEvensOfHundred()
    ensures Size(FilterOut(IntEq, FromRange(IntEq, Upto(100)), IsEven)) == 50
  {
    FilterEvensHalves(50);
  }

  /** The range constructor over `{1, 2, 4, 5, 5}` keeps one 5. The test
      builds this set as `Set<double, equals_int>` and never reads it. */
  lemma RangeWithDuplicateSize()
    ensures Size(FromRange(IntEq, [1, 2, 4, 5, 5])) == 4
  {
    var reps := [1, 2, 4, 5];
    var xs := [1, 2, 4, 5, 5];
    forall v ensures Member(IntEq, reps, v) <==> Member(IntEq, xs, v) {
      if Member(IntEq, xs, v) {
        var i :| 0 <= i < |xs| && IntEq(xs[i], v);
        assert IntEq(reps[if i == 4 then 3 else i], v);
      }
      if Member(IntEq, reps, v) {
        var i :| 0 <= i < |reps| && IntEq(reps[i], v);
        assert IntEq(xs[i], v);
      }
    }
    SizeCountsClasses(IntEq, xs, reps);
  }

  /** The walk of `test_const_iterator` over `{1, 5, 9, 3, 0}`: two copies of
      `begin()` advanced alike stay equal; the third value is 9, the fourth
      is 3; `((++it)++)++` from the fourth node moves `it` two steps, onto
      `end()`, which equals a default-constructed iterator. */
  method ConstIteratorScenario() returns (third: int, fourth: int, atEnd: bool)
    ensures third == 9 && fourth == 3 && atEnd
  {
    var s := FromRange(IntEq, [1, 5, 9, 3, 0]);
    assert s.chain == [1, 5, 9, 3, 0];
    var it1 := Begin(s);
    var it2 := it1;
    var pair := PostNext(s, it1);
    it1 := pair.1;
    pair := PostNext(s, it2);
    it2 := pair.1;
    assert it1 == it2;
    it1 := Next(s, it1);
    pair := PostNext(s, it2);
    it2 := pair.1;
    assert it1 == it2 == Node(2);
    third := Deref(s, it1);
    pair := PostNext(s, it1);
    it1 := pair.1;
    assert it1 == Node(3) != it2;
    fourth := Deref(s, it1);
    it1 := Next(s, it1);
    assert it1 == Node(4);
    pair := PostNext(s, it1);
    it1 := pair.1;
    assert it1 == PastEnd;
    // The outer `++` advances the temporary copy, which is then dropped.
    var temporary := Next(s, pair.0);
    atEnd := it1 == Default();
  }

  /** `test_classe_complessa_concessionaria`: five distinct values, the
      first one added twice, hold five values; after the first is removed,
      positions 0 and 3 hold the second and fifth values and position 4 is
      out of bound. */
  method IndexAfterRemoveScenario() returns (size: nat, first: Result<int, SetError>, last: Result<int, SetError>, beyond: Result<int, SetError>)
    ensures size == 5
    ensures first == Success(2) && last == Success(5)
    ensures beyond == Failure(IndexOutOfBound(OutOfBoundMessage))
  {
    IntEqIsEquivalence();
    var s := Add(IntEq, Empty(), 1);
    s := Add(IntEq, s, 1);
    s := Add(IntEq, s, 2);
    s := Add(IntEq, s, 3);
    s := Add(IntEq, s, 4);
    s := Add(IntEq, s, 5);
    assert s.chain == [1, 2, 3, 4, 5];
    size := Size(s);
    assert IntEq(s.chain[0], 1);
    s := Remove(IntEq, s, 1);
    assert s.chain == [2, 3, 4, 5];
    first := At(s, 0);
    last := At(s, 3);
    beyond := At(s, 4);
  }

  /** `test_set_int`: indexing an empty set fails and removing from it
      changes nothing. */
  method EmptySetScenario() returns (removed: Set<int>, lookup: Result<int, SetError>)
    ensures removed == Empty() && lookup.Failure?
  {
    IntEqIsEquivalence();
    removed := Remove(IntEq, Empty(), 1);
    lookup := At(removed, 1);
  }

  /** `test_operator_uguale_uguale`: two sets built from the same values are
      `==`; clearing one breaks that unless it held nothing; clearing the
      other restores it. */
  lemma ClearAndCompare<T(!new)>(eq: (T, T) -> bool, s: Set<T>)
    requires Equivalence(eq) && Valid(eq, s)
    ensures Equals(eq, s, Copy(eq, s))
    ensures Equals(eq, Clear(s), Copy(eq, s)) <==> s.chain == []
    ensures Equals(eq, Clear(s), Clear(Copy(eq, s)))
  {
    EqualsIsEquivalence(eq, s, s, s);
  }
}
