/** The free functions of Set.h that build a new set out of existing ones:
    `filter_out`, `operator+` (union) and `operator-`.

    Despite its name, `operator-` keeps the values of `A` that `B` contains:
    it is the intersection, and it is modelled as such. All three walk one
    set with a `const_iterator` and `add` to a fresh set; `AddEach` is that
    walk, and `AddAllByCursor` is the walk written with the cursor. */
module Combinators {
  import opened EqualityStrategy
  import opened Membership
  import opened LinkedSet
  import opened SetCursor

  // ---------------------------------------------------------------------
  // The shared loop

  /** Bulk insertion of `xs + [x]` is bulk insertion of `xs` followed by one
      more step of the loop. */
  lemma {:induction false} AddEachSnoc<T(!new)>(eq: (T, T) -> bool, acc: Set<T>, xs: seq<T>, x: T, keep: T -> bool)
    ensures AddEach(eq, acc, xs + [x], keep) ==
      var r := AddEach(eq, acc, xs, keep); if keep(x) then Add(eq, r, x) else r
    decreases |xs|
  {
    if |xs| == 0 {
      assert (xs + [x])[1..] == [];
    } else {
      assert (xs + [x])[0] == xs[0];
      assert (xs + [x])[1..] == xs[1..] + [x];
      AddEachSnoc(eq, if keep(xs[0]) then Add(eq, acc, xs[0]) else acc, xs[1..], x, keep);
    }
  }

  /** `for (b = src.begin(), e = src.end(); b != e; ++b) if (keep(*b)) acc.add(*b);`
      computes exactly the bulk insertion of the source's chain. */
  method AddAllByCursor<T(!new)>(eq: (T, T) -> bool, acc: Set<T>, src: Set<T>, keep: T -> bool) returns (r: Set<T>)
    ensures r == AddEach(eq, acc, src.chain, keep)
  {
    r := acc;
    var b := Begin(src);
    var e := End(src);
    while b != e
      invariant b.Node? ==> b.index < |src.chain|
      invariant b.Node? ==> b.index == |src.chain| - Remaining(src, b)
      invariant r == AddEach(eq, acc, src.chain[..|src.chain| - Remaining(src, b)], keep)
      decreases Remaining(src, b)
    {
      var x := Deref(src, b);
      AddEachSnoc(eq, acc, src.chain[..b.index], x, keep);
      assert src.chain[..b.index] + [x] == src.chain[..b.index + 1];
      if keep(x) {
        r := Add(eq, r, x);
      }
      b := Next(src, b);
    }
    assert src.chain[..|src.chain|] == src.chain;
  }

  // ---------------------------------------------------------------------
  // filter_out

  /** `filter_out(S, pred)`: a fresh set receiving, in chain order, every
      value of `S` that satisfies `pred`. */
  function FilterOut<T(!new)>(eq: (T, T) -> bool, s: Set<T>, pred: T -> bool): (r: Set<T>)
    ensures Valid(eq, r)
    ensures Valid(eq, s) ==> r.chain == Filter(s.chain, pred) && Size(r) == |r.chain|
    ensures Equivalence(eq) ==> forall v :: Contains(eq, r, v) <==>
      exists i :: 0 <= i < |s.chain| && pred(s.chain[i]) && eq(s.chain[i], v)
  {
    FilterOutFacts(eq, s, pred);
    AddEach(eq, Empty(), s.chain, pred)
  }

  lemma FilterOutFacts<T(!new)>(eq: (T, T) -> bool, s: Set<T>, pred: T -> bool)
    ensures Valid(eq, s) ==>
      AddEach(eq, Empty(), s.chain, pred) == Set(Filter(s.chain, pred), |Filter(s.chain, pred)|)
    ensures Equivalence(eq) ==> forall v :: Member(eq, AddEach(eq, Empty(), s.chain, pred).chain, v) <==>
      exists i :: 0 <= i < |s.chain| && pred(s.chain[i]) && eq(s.chain[i], v)
  {
    assert Empty<T>().chain + s.chain == s.chain;
    assert Empty<T>().chain + Filter(s.chain, pred) == Filter(s.chain, pred);
    if Valid(eq, s) {
      AddEachAppendsFiltered(eq, Empty(), s.chain, pred);
    }
    if Equivalence(eq) {
      AddEachMembers(eq, Empty(), s.chain, pred);
      FilterMembers(eq, s.chain, pred);
    }
  }

  // ---------------------------------------------------------------------
  // operator+

  /** `A + B`: a copy of `A` that then receives every value of `B`. */
  function Union<T(!new)>(eq: (T, T) -> bool, a: Set<T>, b: Set<T>): (r: Set<T>)
    ensures Valid(eq, r)
    ensures Valid(eq, a) && Valid(eq, b) ==>
      r.chain == a.chain + Unmatched(eq, b.chain, a.chain) && Size(r) == |r.chain|
    ensures Equivalence(eq) ==> forall v :: Contains(eq, r, v) <==> Contains(eq, a, v) || Contains(eq, b, v)
  {
    UnionFacts(eq, a, b);
    AddEach(eq, Copy(eq, a), b.chain, Always)
  }

  lemma UnionFacts<T(!new)>(eq: (T, T) -> bool, a: Set<T>, b: Set<T>)
    ensures Valid(eq, a) && Valid(eq, b) ==>
      AddEach(eq, Copy(eq, a), b.chain, Always) ==
      Set(a.chain + Unmatched(eq, b.chain, a.chain), a.count + |Unmatched(eq, b.chain, a.chain)|)
    ensures Equivalence(eq) ==> forall v :: Member(eq, AddEach(eq, Copy(eq, a), b.chain, Always).chain, v) <==>
      Member(eq, a.chain, v) || Member(eq, b.chain, v)
  {
    var c := Copy(eq, a);
    if Valid(eq, a) && Valid(eq, b) {
      AddEachAppendsUnmatched(eq, c, b.chain);
    }
    if Equivalence(eq) {
      AddEachMembers(eq, c, b.chain, Always);
      FilterAlways(b.chain);
      forall v ensures Member(eq, c.chain + b.chain, v) <==> Member(eq, a.chain, v) || Member(eq, b.chain, v) {
        MemberConcat(eq, c.chain, b.chain, v);
      }
    }
  }

  // ---------------------------------------------------------------------
  // operator-

  /** The predicate `B.contains(x)` that `operator-` filters with. */
  function InSet<T>(eq: (T, T) -> bool, b: Set<T>): T -> bool {
    x => Contains(eq, b, x)
  }

  /** `A - B`: a fresh set receiving, in the order of `A`, every value of `A`
      that `B` contains. */
  function Intersect<T(!new)>(eq: (T, T) -> bool, a: Set<T>, b: Set<T>): (r: Set<T>)
    ensures Valid(eq, r)
    ensures Valid(eq, a) ==> r.chain == Filter(a.chain, InSet(eq, b)) && Size(r) == |r.chain|
    ensures Equivalence(eq) ==> forall v :: Contains(eq, r, v) <==> Contains(eq, a, v) && Contains(eq, b, v)
  {
    IntersectFacts(eq, a, b);
    FilterOut(eq, a, InSet(eq, b))
  }

  lemma IntersectFacts<T(!new)>(eq: (T, T) -> bool, a: Set<T>, b: Set<T>)
    ensures Equivalence(eq) ==> forall v :: Contains(eq, FilterOut(eq, a, InSet(eq, b)), v) <==>
      Contains(eq, a, v) && Contains(eq, b, v)
  {
    if Equivalence(eq) {
      var r := FilterOut(eq, a, InSet(eq, b));
      forall v ensures Contains(eq, r, v) <==> Contains(eq, a, v) && Contains(eq, b, v) {
        if Contains(eq, r, v) {
          var i :| 0 <= i < |a.chain| && InSet(eq, b)(a.chain[i]) && eq(a.chain[i], v);
          MemberRespectsEq(eq, b.chain, a.chain[i], v);
        }
        if Contains(eq, a, v) && Contains(eq, b, v) {
          var i :| 0 <= i < |a.chain| && eq(a.chain[i], v);
          MemberRespectsEq(eq, b.chain, v, a.chain[i]);
          assert InSet(eq, b)(a.chain[i]);
        }
      }
    }
  }

  // ---------------------------------------------------------------------
  // Laws

  /** Two valid sets with the same members are `==`. */
  lemma SameContentsEqual<T(!new)>(eq: (T, T) -> bool, a: Set<T>, b: Set<T>)
    requires Equivalence(eq) && Valid(eq, a) && Valid(eq, b)
    requires forall v :: Contains(eq, a, v) <==> Contains(eq, b, v)
    ensures Equals(eq, a, b)
  {
    forall v ensures Member(eq, a.chain, v) <==> Member(eq, b.chain, v) {
      assert Contains(eq, a, v) <==> Contains(eq, b, v);
    }
    EqualsIffSameMembers(eq, a, b);
  }

  /** `a + b == b + a`. */
  lemma UnionCommutes<T(!new)>(eq: (T, T) -> bool, a: Set<T>, b: Set<T>)
    requires Equivalence(eq)
    ensures Equals(eq, Union(eq, a, b), Union(eq, b, a))
  {
    SameContentsEqual(eq, Union(eq, a, b), Union(eq, b, a));
  }

  /** `(a + b) + c == a + (b + c)`. */
  lemma UnionAssociative<T(!new)>(eq: (T, T) -> bool, a: Set<T>, b: Set<T>, c: Set<T>)
    requires Equivalence(eq)
    ensures Equals(eq, Union(eq, Union(eq, a, b), c), Union(eq, a, Union(eq, b, c)))
  {
    SameContentsEqual(eq, Union(eq, Union(eq, a, b), c), Union(eq, a, Union(eq, b, c)));
  }

  /** Adding a set whose values are all present already changes nothing,
      node for node: `a + subset == a`, and in particular `a + a == a`. */
  lemma UnionAbsorbsSubset<T(!new)>(eq: (T, T) -> bool, a: Set<T>, b: Set<T>)
    requires Valid(eq, a) && Valid(eq, b)
    requires Subsumed(eq, b.chain, a.chain)
    ensures Union(eq, a, b) == a
  {
    UnmatchedWhenSubsumed(eq, b.chain, a.chain);
    assert a.chain + [] == a.chain;
  }

  lemma UnionIdempotent<T(!new)>(eq: (T, T) -> bool, a: Set<T>)
    requires Reflexive(eq) && Valid(eq, a)
    ensures Union(eq, a, a) == a
  {
    assert Subsumed(eq, a.chain, a.chain) by {
      forall i | 0 <= i < |a.chain| ensures Member(eq, a.chain, a.chain[i]) {
        assert eq(a.chain[i], a.chain[i]);
      }
    }
    UnionAbsorbsSubset(eq, a, a);
  }

  /** The empty set is the identity of `+` on either side, node for node. */
  lemma UnionEmptyIdentity<T(!new)>(eq: (T, T) -> bool, a: Set<T>)
    requires Valid(eq, a)
    ensures Union(eq, a, Empty()) == a
    ensures Union(eq, Empty(), a) == a
  {
    UnmatchedAgainstNothing(eq, a.chain);
    assert a.chain + [] == a.chain;
    assert [] + a.chain == a.chain;
  }

  /** `a - b == b - a`. */
  lemma IntersectCommutes<T(!new)>(eq: (T, T) -> bool, a: Set<T>, b: Set<T>)
    requires Equivalence(eq)
    ensures Equals(eq, Intersect(eq, a, b), Intersect(eq, b, a))
  {
    SameContentsEqual(eq, Intersect(eq, a, b), Intersect(eq, b, a));
  }

  /** `a - b - c == c - a - b` (both operators associate to the left). */
  lemma IntersectRotates<T(!new)>(eq: (T, T) -> bool, a: Set<T>, b: Set<T>, c: Set<T>)
    requires Equivalence(eq)
    ensures Equals(eq, Intersect(eq, Intersect(eq, a, b), c), Intersect(eq, Intersect(eq, c, a), b))
  {
    SameContentsEqual(eq, Intersect(eq, Intersect(eq, a, b), c), Intersect(eq, Intersect(eq, c, a), b));
  }

  /** `a - a == a`, node for node. */
  lemma IntersectIdempotent<T(!new)>(eq: (T, T) -> bool, a: Set<T>)
    requires Reflexive(eq) && Valid(eq, a)
    ensures Intersect(eq, a, a) == a
  {
    forall i | 0 <= i < |a.chain| ensures InSet(eq, a)(a.chain[i]) {
      assert eq(a.chain[i], a.chain[i]);
    }
    FilterKeepsAll(a.chain, InSet(eq, a));
  }

  /** Intersecting with the empty set, on either side, gives the empty set. */
  lemma IntersectEmpty<T(!new)>(eq: (T, T) -> bool, a: Set<T>)
    requires Valid(eq, a)
    ensures Intersect(eq, a, Empty()) == Empty()
    ensures Intersect(eq, Empty(), a) == Empty()
  {
    FilterKeepsNone(a.chain, InSet(eq, Empty()));
  }

  /** Sets with no common value intersect to the empty set. */
  lemma IntersectDisjoint<T(!new)>(eq: (T, T) -> bool, a: Set<T>, b: Set<T>)
    requires Reflexive(eq) && Valid(eq, a)
    requires forall v :: Contains(eq, a, v) ==> !Contains(eq, b, v)
    ensures Intersect(eq, a, b) == Empty()
  {
    forall i | 0 <= i < |a.chain| ensures !InSet(eq, b)(a.chain[i]) {
      assert eq(a.chain[i], a.chain[i]);
      assert Contains(eq, a, a.chain[i]);
    }
    FilterKeepsNone(a.chain, InSet(eq, b));
  }

  /** Intersecting with a subset yields the subset: `a - subset == subset`. */
  lemma IntersectSubset<T(!new)>(eq: (T, T) -> bool, a: Set<T>, b: Set<T>)
    requires Equivalence(eq) && Valid(eq, a) && Valid(eq, b)
    requires Subsumed(eq, b.chain, a.chain)
    ensures Equals(eq, Intersect(eq, a, b), b)
  {
    SubsumedTransfersMembers(eq, b.chain, a.chain);
    SameContentsEqual(eq, Intersect(eq, a, b), b);
  }

  /** Inclusion-exclusion: `|a + b| + |a - b| == |a| + |b|`. */
  lemma UnionIntersectSizes<T(!new)>(eq: (T, T) -> bool, a: Set<T>, b: Set<T>)
    requires Equivalence(eq) && Valid(eq, a) && Valid(eq, b)
    ensures Size(Union(eq, a, b)) + Size(Intersect(eq, a, b)) == Size(a) + Size(b)
  {
    var ab := Intersect(eq, a, b);
    var ba := Intersect(eq, b, a);
    PartitionLength(eq, b.chain, a.chain, InSet(eq, a));
    forall v ensures Member(eq, ab.chain, v) <==> Member(eq, ba.chain, v) {
      assert Contains(eq, ab, v) <==> Contains(eq, ba, v);
    }
    SameMembersSameLength(eq, ab.chain, ba.chain);
  }
}
