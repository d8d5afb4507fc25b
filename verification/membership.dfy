/** Reference definitions over a chain of elements, stated with quantifiers
    rather than scans: when a value is present, when a chain is free of
    duplicates, when two chains hold the same elements. The executable
    operations of the Set are proved against these. */
module Membership {
  import opened EqualityStrategy

  /** `v` is present in `xs` in the sense the container's lookup uses:
      some stored element `e` satisfies `eq(e, v)`. */
  ghost predicate Member<T>(eq: (T, T) -> bool, xs: seq<T>, v: T) {
    exists i :: 0 <= i < |xs| && eq(xs[i], v)
  }

  /** No stored element equals a later one. This is the orientation in which
      `add` checks a new value against the chain it is appended to. */
  ghost predicate Unique<T>(eq: (T, T) -> bool, xs: seq<T>) {
    forall i, j :: 0 <= i < j < |xs| ==> !eq(xs[i], xs[j])
  }

  /** Every element of `xs` is present in `ys`. */
  ghost predicate Subsumed<T>(eq: (T, T) -> bool, xs: seq<T>, ys: seq<T>) {
    forall i :: 0 <= i < |xs| ==> Member(eq, ys, xs[i])
  }

  /** Membership-based equality: insertion order plays no part. */
  ghost predicate SameMembers<T(!new)>(eq: (T, T) -> bool, xs: seq<T>, ys: seq<T>) {
    forall v :: Member(eq, xs, v) <==> Member(eq, ys, v)
  }

  /** The elements of `xs` that `keep` admits, in their order in `xs`. */
  function Filter<T>(xs: seq<T>, keep: T -> bool): seq<T> {
    if |xs| == 0 then []
    else (if keep(xs[0]) then [xs[0]] else []) + Filter(xs[1..], keep)
  }

  /** The elements of `ys` that are not present in `xs`, in their order in `ys`. */
  ghost function Unmatched<T>(eq: (T, T) -> bool, ys: seq<T>, xs: seq<T>): seq<T> {
    if |ys| == 0 then []
    else (if Member(eq, xs, ys[0]) then [] else [ys[0]]) + Unmatched(eq, ys[1..], xs)
  }

  /** Presence is closed under the equivalence. */
  lemma MemberRespectsEq<T(!new)>(eq: (T, T) -> bool, xs: seq<T>, v: T, w: T)
    requires Transitive(eq)
    ensures Member(eq, xs, v) && eq(v, w) ==> Member(eq, xs, w)
  {
  }

  /** Presence in a concatenation is presence in either part. */
  lemma MemberConcat<T>(eq: (T, T) -> bool, xs: seq<T>, ys: seq<T>, v: T)
    ensures Member(eq, xs + ys, v) <==> Member(eq, xs, v) || Member(eq, ys, v)
  {
    if Member(eq, xs + ys, v) {
      var k :| 0 <= k < |xs + ys| && eq((xs + ys)[k], v);
      if k < |xs| {
        assert (xs + ys)[k] == xs[k];
      } else {
        assert (xs + ys)[k] == ys[k - |xs|];
      }
    }
    if Member(eq, xs, v) {
      var k :| 0 <= k < |xs| && eq(xs[k], v);
      assert (xs + ys)[k] == xs[k];
    }
    if Member(eq, ys, v) {
      var k :| 0 <= k < |ys| && eq(ys[k], v);
      assert (xs + ys)[|xs| + k] == ys[k];
    }
  }

  /** Deleting the one element that matches `v` from a duplicate-free chain
      keeps it duplicate-free and takes out exactly the class of `v`. */
  lemma DeleteMatch<T(!new)>(eq: (T, T) -> bool, xs: seq<T>, k: int, v: T)
    requires Equivalence(eq) && Unique(eq, xs)
    requires 0 <= k < |xs| && eq(xs[k], v)
    ensures Unique(eq, xs[..k] + xs[k + 1..])
    ensures forall x :: Member(eq, xs[..k] + xs[k + 1..], x) <==> Member(eq, xs, x) && !eq(x, v)
  {
    var rest := xs[..k] + xs[k + 1..];
    forall j | 0 <= j < |rest| ensures rest[j] == xs[if j < k then j else j + 1] {
    }
    forall j | 0 <= j < |rest| ensures !eq(rest[j], v) {
      var i := if j < k then j else j + 1;
      assert rest[j] == xs[i];
    }
    assert xs == xs[..k] + [xs[k]] + xs[k + 1..];
    forall x ensures Member(eq, rest, x) <==> Member(eq, xs, x) && !eq(x, v) {
      MemberConcat(eq, xs[..k], xs[k + 1..], x);
      MemberConcat(eq, xs[..k] + [xs[k]], xs[k + 1..], x);
      MemberConcat(eq, xs[..k], [xs[k]], x);
      assert Member(eq, [xs[k]], x) <==> eq(xs[k], x) by {
        assert [xs[k]][0] == xs[k];
      }
      MemberRespectsEq(eq, rest, x, v);
    }
  }

  lemma SubsumedTransfersMembers<T(!new)>(eq: (T, T) -> bool, xs: seq<T>, ys: seq<T>)
    requires Transitive(eq)
    requires Subsumed(eq, xs, ys)
    ensures forall v :: Member(eq, xs, v) ==> Member(eq, ys, v)
  {
    forall v | Member(eq, xs, v) ensures Member(eq, ys, v) {
      var i :| 0 <= i < |xs| && eq(xs[i], v);
      MemberRespectsEq(eq, ys, xs[i], v);
    }
  }

  /** Same members is inclusion both ways, element by element. */
  lemma SameMembersIffSubsumed<T(!new)>(eq: (T, T) -> bool, xs: seq<T>, ys: seq<T>)
    requires Equivalence(eq)
    ensures SameMembers(eq, xs, ys) <==> Subsumed(eq, xs, ys) && Subsumed(eq, ys, xs)
  {
    if Subsumed(eq, xs, ys) && Subsumed(eq, ys, xs) {
      SubsumedTransfersMembers(eq, xs, ys);
      SubsumedTransfersMembers(eq, ys, xs);
    }
    if SameMembers(eq, xs, ys) {
      forall i | 0 <= i < |xs| ensures Member(eq, ys, xs[i]) {
        assert Member(eq, xs, xs[i]);
      }
      forall i | 0 <= i < |ys| ensures Member(eq, xs, ys[i]) {
        assert Member(eq, ys, ys[i]);
      }
    }
  }

  /** Deleting one element keeps every value that element did not match. */
  lemma MemberAfterDelete<T>(eq: (T, T) -> bool, ys: seq<T>, k: int, v: T)
    requires 0 <= k < |ys|
    requires Member(eq, ys, v) && !eq(ys[k], v)
    ensures Member(eq, ys[..k] + ys[k + 1..], v)
  {
    var rest := ys[..k] + ys[k + 1..];
    var j :| 0 <= j < |ys| && eq(ys[j], v);
    if j < k {
      assert rest[j] == ys[j];
    } else {
      assert rest[j - 1] == ys[j];
    }
  }

  /** The counting argument behind whole-set equality: a duplicate-free chain
      whose every element is present in `ys` is no longer than `ys`, since
      distinct classes need distinct witnesses. */
  lemma {:induction false} SubsumedNoLonger<T(!new)>(eq: (T, T) -> bool, xs: seq<T>, ys: seq<T>)
    requires Equivalence(eq)
    requires Unique(eq, xs) && Subsumed(eq, xs, ys)
    ensures |xs| <= |ys|
    decreases |xs|
  {
    if |xs| > 0 {
      var k :| 0 <= k < |ys| && eq(ys[k], xs[0]);
      var rest := ys[..k] + ys[k + 1..];
      forall i | 0 <= i < |xs[1..]| ensures Member(eq, rest, xs[1..][i]) {
        assert xs[1..][i] == xs[i + 1];
        assert !eq(xs[0], xs[i + 1]);
        MemberAfterDelete(eq, ys, k, xs[i + 1]);
      }
      SubsumedNoLonger(eq, xs[1..], rest);
    }
  }

  /** A chain with an element missing from `ys` is strictly longer than any
      duplicate-free `ys` contained in it. */
  lemma MissingElementMeansShorter<T(!new)>(eq: (T, T) -> bool, xs: seq<T>, ys: seq<T>, m: int)
    requires Equivalence(eq)
    requires Unique(eq, ys) && Subsumed(eq, ys, xs)
    requires 0 <= m < |xs| && !Member(eq, ys, xs[m])
    ensures |ys| < |xs|
  {
    var rest := xs[..m] + xs[m + 1..];
    forall i | 0 <= i < |ys| ensures Member(eq, rest, ys[i]) {
      assert !eq(xs[m], ys[i]);
      MemberAfterDelete(eq, xs, m, ys[i]);
    }
    SubsumedNoLonger(eq, ys, rest);
  }

  /** Two duplicate-free chains with the same members have the same length. */
  lemma SameMembersSameLength<T(!new)>(eq: (T, T) -> bool, xs: seq<T>, ys: seq<T>)
    requires Equivalence(eq)
    requires Unique(eq, xs) && Unique(eq, ys)
    requires SameMembers(eq, xs, ys)
    ensures |xs| == |ys|
  {
    SameMembersIffSubsumed(eq, xs, ys);
    SubsumedNoLonger(eq, xs, ys);
    SubsumedNoLonger(eq, ys, xs);
  }

  /** Equal lengths and one inclusion give the other inclusion. */
  lemma SameLengthSubsumedSameMembers<T(!new)>(eq: (T, T) -> bool, xs: seq<T>, ys: seq<T>)
    requires Equivalence(eq)
    requires Unique(eq, xs) && Unique(eq, ys)
    requires |xs| == |ys| && Subsumed(eq, ys, xs)
    ensures SameMembers(eq, xs, ys)
  {
    forall m | 0 <= m < |xs| ensures Member(eq, ys, xs[m]) {
      if !Member(eq, ys, xs[m]) {
        MissingElementMeansShorter(eq, xs, ys, m);
        assert false;
      }
    }
    SameMembersIffSubsumed(eq, xs, ys);
  }

  /** Each element of a filtered chain is an admitted element of the original. */
  lemma {:induction false} FilterElements<T>(xs: seq<T>, keep: T -> bool)
    ensures forall k :: 0 <= k < |Filter(xs, keep)| ==>
      exists i :: 0 <= i < |xs| && Filter(xs, keep)[k] == xs[i] && keep(xs[i])
    decreases |xs|
  {
    if |xs| > 0 {
      FilterElements(xs[1..], keep);
      var head := if keep(xs[0]) then [xs[0]] else [];
      var f := Filter(xs, keep);
      var tail := Filter(xs[1..], keep);
      assert f == head + tail;
      forall k | 0 <= k < |f|
        ensures exists i :: 0 <= i < |xs| && f[k] == xs[i] && keep(xs[i])
      {
        if k < |head| {
          assert f[k] == xs[0] && keep(xs[0]);
        } else {
          assert f[k] == tail[k - |head|];
          var i :| 0 <= i < |xs[1..]| && tail[k - |head|] == xs[1..][i] && keep(xs[1..][i]);
          assert xs[1..][i] == xs[i + 1];
          assert f[k] == xs[i + 1] && keep(xs[i + 1]);
        }
      }
    } else {
      assert Filter(xs, keep) == [];
    }
  }

  /** A value is present in a filtered chain exactly when an admitted element
      of the original matches it. */
  lemma {:induction false} FilterMembers<T(!new)>(eq: (T, T) -> bool, xs: seq<T>, keep: T -> bool)
    ensures forall v :: Member(eq, Filter(xs, keep), v) <==>
      exists i :: 0 <= i < |xs| && keep(xs[i]) && eq(xs[i], v)
    decreases |xs|
  {
    if |xs| > 0 {
      FilterMembers(eq, xs[1..], keep);
      var head := if keep(xs[0]) then [xs[0]] else [];
      var f := Filter(xs, keep);
      var tail := Filter(xs[1..], keep);
      assert f == head + tail;
      forall v ensures Member(eq, f, v) <==> exists i :: 0 <= i < |xs| && keep(xs[i]) && eq(xs[i], v) {
        if Member(eq, f, v) {
          var k :| 0 <= k < |f| && eq(f[k], v);
          if k < |head| {
            assert f[k] == xs[0];
          } else {
            assert f[k] == tail[k - |head|];
            assert Member(eq, tail, v);
            var i :| 0 <= i < |xs[1..]| && keep(xs[1..][i]) && eq(xs[1..][i], v);
            assert xs[1..][i] == xs[i + 1];
          }
        }
        if exists i :: 0 <= i < |xs| && keep(xs[i]) && eq(xs[i], v) {
          var i :| 0 <= i < |xs| && keep(xs[i]) && eq(xs[i], v);
          if i == 0 {
            assert f[0] == xs[0];
          } else {
            assert xs[1..][i - 1] == xs[i];
            assert Member(eq, tail, v);
            var k :| 0 <= k < |tail| && eq(tail[k], v);
            assert f[|head| + k] == tail[k];
          }
        }
      }
    } else {
      assert Filter(xs, keep) == [];
    }
  }

  /** A value is present in `xs` followed by the unmatched part of `ys`
      exactly when it is present in `xs` or in `ys`. */
  lemma {:induction false} UnmatchedMembers<T(!new)>(eq: (T, T) -> bool, ys: seq<T>, xs: seq<T>)
    requires Transitive(eq)
    ensures forall v :: Member(eq, xs + Unmatched(eq, ys, xs), v) <==> Member(eq, xs, v) || Member(eq, ys, v)
    decreases |ys|
  {
    if |ys| > 0 {
      UnmatchedMembers(eq, ys[1..], xs);
      var head := if Member(eq, xs, ys[0]) then [] else [ys[0]];
      var tail := Unmatched(eq, ys[1..], xs);
      var u := xs + Unmatched(eq, ys, xs);
      assert u == xs + head + tail;
      forall v ensures Member(eq, u, v) <==> Member(eq, xs, v) || Member(eq, ys, v) {
        if Member(eq, u, v) {
          var k :| 0 <= k < |u| && eq(u[k], v);
          if k < |xs| {
            assert u[k] == xs[k];
          } else if k < |xs| + |head| {
            assert u[k] == ys[0];
          } else {
            assert u[k] == (xs + tail)[k - |head|];
            assert Member(eq, xs + tail, v);
            if Member(eq, ys[1..], v) {
              var i :| 0 <= i < |ys[1..]| && eq(ys[1..][i], v);
              assert ys[1..][i] == ys[i + 1];
            }
          }
        }
        if Member(eq, xs, v) {
          var k :| 0 <= k < |xs| && eq(xs[k], v);
          assert u[k] == xs[k];
        } else if Member(eq, ys, v) {
          var i :| 0 <= i < |ys| && eq(ys[i], v);
          if i == 0 {
            if Member(eq, xs, ys[0]) {
              MemberRespectsEq(eq, xs, ys[0], v);
            } else {
              assert u[|xs|] == ys[0];
            }
          } else {
            assert ys[1..][i - 1] == ys[i];
            assert Member(eq, xs + tail, v);
            var k :| 0 <= k < |xs + tail| && eq((xs + tail)[k], v);
            if k < |xs| {
              assert (xs + tail)[k] == xs[k];
            } else {
              assert u[k + |head|] == (xs + tail)[k];
            }
          }
        }
      }
    } else {
      assert xs + Unmatched(eq, ys, xs) == xs;
    }
  }

  /** The elements of `ys` split into those present in `xs` and those not. */
  lemma {:induction false} PartitionLength<T>(eq: (T, T) -> bool, ys: seq<T>, xs: seq<T>, present: T -> bool)
    requires forall y :: present(y) <==> Member(eq, xs, y)
    ensures |Filter(ys, present)| + |Unmatched(eq, ys, xs)| == |ys|
    decreases |ys|
  {
    if |ys| > 0 {
      PartitionLength(eq, ys[1..], xs, present);
    }
  }

  /** Nothing of `ys` is unmatched when every element is already present. */
  lemma {:induction false} UnmatchedWhenSubsumed<T>(eq: (T, T) -> bool, ys: seq<T>, xs: seq<T>)
    requires Subsumed(eq, ys, xs)
    ensures Unmatched(eq, ys, xs) == []
    decreases |ys|
  {
    if |ys| > 0 {
      assert Member(eq, xs, ys[0]);
      assert Subsumed(eq, ys[1..], xs) by {
        forall i | 0 <= i < |ys[1..]| ensures Member(eq, xs, ys[1..][i]) {
          assert ys[1..][i] == ys[i + 1];
        }
      }
      UnmatchedWhenSubsumed(eq, ys[1..], xs);
    }
  }

  /** Against an empty chain every element is unmatched. */
  lemma {:induction false} UnmatchedAgainstNothing<T>(eq: (T, T) -> bool, ys: seq<T>)
    ensures Unmatched(eq, ys, []) == ys
    decreases |ys|
  {
    if |ys| > 0 {
      UnmatchedAgainstNothing(eq, ys[1..]);
      assert !Member(eq, [], ys[0]);
      assert ys == [ys[0]] + ys[1..];
    }
  }

  /** Filtering with a predicate that admits every element changes nothing. */
  lemma {:induction false} FilterKeepsAll<T>(xs: seq<T>, keep: T -> bool)
    requires forall i :: 0 <= i < |xs| ==> keep(xs[i])
    ensures Filter(xs, keep) == xs
    decreases |xs|
  {
    if |xs| > 0 {
      assert keep(xs[0]);
      assert forall i :: 0 <= i < |xs[1..]| ==> keep(xs[1..][i]) by {
        forall i | 0 <= i < |xs[1..]| ensures keep(xs[1..][i]) {
          assert xs[1..][i] == xs[i + 1];
        }
      }
      FilterKeepsAll(xs[1..], keep);
      assert xs == [xs[0]] + xs[1..];
    }
  }

  /** Filtering with a predicate that admits no element leaves nothing. */
  lemma {:induction false} FilterKeepsNone<T>(xs: seq<T>, keep: T -> bool)
    requires forall i :: 0 <= i < |xs| ==> !keep(xs[i])
    ensures Filter(xs, keep) == []
    decreases |xs|
  {
    if |xs| > 0 {
      assert !keep(xs[0]);
      assert forall i :: 0 <= i < |xs[1..]| ==> !keep(xs[1..][i]) by {
        forall i | 0 <= i < |xs[1..]| ensures !keep(xs[1..][i]) {
          assert xs[1..][i] == xs[i + 1];
        }
      }
      FilterKeepsNone(xs[1..], keep);
    }
  }

  /** Filtering distributes over concatenation. */
  lemma {:induction false} FilterConcat<T>(xs: seq<T>, ys: seq<T>, keep: T -> bool)
    ensures Filter(xs + ys, keep) == Filter(xs, keep) + Filter(ys, keep)
    decreases |xs|
  {
    if |xs| == 0 {
      assert xs + ys == ys;
    } else {
      assert (xs + ys)[0] == xs[0];
      assert (xs + ys)[1..] == xs[1..] + ys;
      FilterConcat(xs[1..], ys, keep);
    }
  }
}
