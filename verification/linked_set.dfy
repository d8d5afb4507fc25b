/** The duplicate-free container `Set<T, Eql>` of Set.h.

    The C++ class owns a singly-linked chain of nodes starting at `_head` and
    keeps a separate counter `_size`. Here the chain is the sequence of the
    values its nodes hold, head first, and the counter is a field of its own,
    so that "the counter equals the chain length" is a property to prove and
    not a definition. The equality functor `Eql` is the parameter `eq`. */
module LinkedSet {
  import opened EqualityStrategy
  import opened Membership
  import opened Outcomes

  datatype Set<T> = Set(chain: seq<T>, count: nat)

  /** The exception `operator[]` throws for a position outside the chain. */
  datatype SetError = IndexOutOfBound(message: string)

  const OutOfBoundMessage: string := "Cannot read the value with an index out of bound"

  /** `_size` equals the number of nodes reachable from `_head`. */
  ghost predicate CountConsistent<T>(s: Set<T>) {
    s.count == |s.chain|
  }

  /** The class invariant: the counter is right and no two stored values are
      equal under the functor. */
  ghost predicate Valid<T>(eq: (T, T) -> bool, s: Set<T>) {
    && CountConsistent(s)
    && Unique(eq, s.chain)
  }

  /** The default constructor: null head, zero size. */
  function Empty<T>(): (r: Set<T>)
    ensures CountConsistent(r) && IsEmpty(r)
  {
    Set([], 0)
  }

  /** A freshly built set satisfies the invariant under any functor and
      contains nothing. */
  lemma EmptyIsValid<T>(eq: (T, T) -> bool, v: T)
    ensures Valid(eq, Empty<T>())
    ensures !Contains(eq, Empty<T>(), v)
  {
  }

  /** The admit-everything predicate, for the loops that add unconditionally. */
  function Always<T>(x: T): bool {
    true
  }

  // ---------------------------------------------------------------------
  // Lookup

  /** The scan of `contains`: walk from the head and stop at the first node
      whose value `e` satisfies `eq(e, v)`. */
  function ChainContains<T>(eq: (T, T) -> bool, xs: seq<T>, v: T): (b: bool)
    ensures b <==> Member(eq, xs, v)
  {
    if |xs| == 0 then false
    else if eq(xs[0], v) then true
    else
      assert forall i :: 1 <= i < |xs| ==> xs[1..][i - 1] == xs[i];
      ChainContains(eq, xs[1..], v)
  }

  function Contains<T>(eq: (T, T) -> bool, s: Set<T>, v: T): (b: bool)
    ensures b <==> Member(eq, s.chain, v)
  {
    ChainContains(eq, s.chain, v)
  }

  function Size<T>(s: Set<T>): (n: nat)
    ensures CountConsistent(s) ==> n == |s.chain|
  {
    s.count
  }

  function IsEmpty<T>(s: Set<T>): (b: bool)
    ensures CountConsistent(s) ==> (b <==> s.chain == [])
  {
    s.count == 0
  }

  // ---------------------------------------------------------------------
  // Mutators

  /** `add`: a value already present leaves the set as it is; otherwise a
      node holding it is linked after the tail and the counter grows. */
  function Add<T(!new)>(eq: (T, T) -> bool, s: Set<T>, v: T): (r: Set<T>)
    ensures Member(eq, s.chain, v) ==> r == s
    ensures !Member(eq, s.chain, v) ==> r.chain == s.chain + [v] && r.count == s.count + 1
    ensures Valid(eq, s) ==> Valid(eq, r)
    ensures Reflexive(eq) ==> Member(eq, r.chain, v)
  {
    if Contains(eq, s, v) then s
    else
      assert (s.chain + [v])[|s.chain|] == v;
      Set(s.chain + [v], s.count + 1)
  }

  /** The splice loop of `remove`, entered when the head did not match: it
      walks from the head comparing `eq(v, e)` (the argument order is swapped
      with respect to `contains`) and unlinks the first node that matches.
      `None` is the walk falling off the end of the chain. A match at
      position 0 happens only when `eq(head, v)` failed but `eq(v, head)`
      holds, that is for a non-symmetric functor; the C++ loop then unlinks
      through `previous == current` and leaves `_head` dangling, a case
      `Remove` excludes by requiring an equivalence. */
  function Unlink<T>(eq: (T, T) -> bool, xs: seq<T>, v: T): (r: Option<seq<T>>)
    ensures r.None? ==> forall i :: 0 <= i < |xs| ==> !eq(v, xs[i])
    ensures r.Some? ==> |r.value| == |xs| - 1
  {
    if |xs| == 0 then None
    else if eq(v, xs[0]) then Some(xs[1..])
    else
      assert forall i :: 1 <= i < |xs| ==> xs[1..][i - 1] == xs[i];
      match Unlink(eq, xs[1..], v)
      case None => None
      case Some(rest) => Some([xs[0]] + rest)
  }

  /** Position `k` holds the first node the splice loop matches. */
  ghost predicate FirstMatchAt<T>(eq: (T, T) -> bool, xs: seq<T>, v: T, k: int) {
    && 0 <= k < |xs|
    && eq(v, xs[k])
    && forall j :: 0 <= j < k ==> !eq(v, xs[j])
  }

  /** The splice loop falls off the end exactly when no node matches. */
  lemma {:induction false} UnlinkMissesOnlyWithoutMatch<T>(eq: (T, T) -> bool, xs: seq<T>, v: T)
    ensures Unlink(eq, xs, v).None? <==> forall i :: 0 <= i < |xs| ==> !eq(v, xs[i])
    decreases |xs|
  {
    if |xs| > 0 && !eq(v, xs[0]) {
      var tail := xs[1..];
      UnlinkMissesOnlyWithoutMatch(eq, tail, v);
      if forall i :: 0 <= i < |tail| ==> !eq(v, tail[i]) {
        forall i | 0 <= i < |xs| ensures !eq(v, xs[i]) {
          if i > 0 {
            assert xs[i] == tail[i - 1];
          }
        }
      } else {
        var i :| 0 <= i < |tail| && eq(v, tail[i]);
        assert xs[i + 1] == tail[i];
      }
    }
  }

  /** A first match in the tail, behind a non-matching head, is a first
      match one position further on. */
  lemma FirstMatchPastHead<T>(eq: (T, T) -> bool, xs: seq<T>, v: T, k: int)
    requires |xs| > 0 && !eq(v, xs[0]) && FirstMatchAt(eq, xs[1..], v, k)
    ensures FirstMatchAt(eq, xs, v, k + 1)
  {
    forall j | 0 <= j < k + 1 ensures !eq(v, xs[j]) {
      if j > 0 {
        assert xs[j] == xs[1..][j - 1];
      }
    }
    assert xs[k + 1] == xs[1..][k];
  }

  /** Re-linking the head in front of a spliced tail. */
  lemma SpliceBehindHead<T>(xs: seq<T>, k: int)
    requires 0 <= k < |xs| - 1
    ensures [xs[0]] + (xs[1..][..k] + xs[1..][k + 1..]) == xs[..k + 1] + xs[k + 2..]
  {
  }

  /** When the splice loop finds a match, it unlinks the first one and keeps
      every other node in order. */
  lemma {:induction false} UnlinkSplicesFirstMatch<T>(eq: (T, T) -> bool, xs: seq<T>, v: T)
    ensures Unlink(eq, xs, v).Some? ==>
      exists k :: FirstMatchAt(eq, xs, v, k) && Unlink(eq, xs, v).value == xs[..k] + xs[k + 1..]
    decreases |xs|
  {
    if |xs| == 0 {
    } else if eq(v, xs[0]) {
      assert FirstMatchAt(eq, xs, v, 0);
      assert xs[1..] == xs[..0] + xs[1..];
    } else {
      var tail := xs[1..];
      UnlinkSplicesFirstMatch(eq, tail, v);
      match Unlink(eq, tail, v)
      case None =>
      case Some(rest) =>
        var k :| FirstMatchAt(eq, tail, v, k) && rest == tail[..k] + tail[k + 1..];
        FirstMatchPastHead(eq, xs, v, k);
        SpliceBehindHead(xs, k);
    }
  }

  /** On a duplicate-free chain and an equivalence, the splice loop's result
      is the chain minus the one node matching `v`. */
  lemma UnlinkKeepsInvariant<T(!new)>(eq: (T, T) -> bool, xs: seq<T>, v: T)
    requires Equivalence(eq) && Unique(eq, xs)
    ensures Member(eq, xs, v) ==> Unlink(eq, xs, v).Some?
    ensures Unlink(eq, xs, v).Some? ==>
      && Unique(eq, Unlink(eq, xs, v).value)
      && !Member(eq, Unlink(eq, xs, v).value, v)
      && |Unlink(eq, xs, v).value| == |xs| - 1
      && exists k :: 0 <= k < |xs| && eq(xs[k], v) && Unlink(eq, xs, v).value == xs[..k] + xs[k + 1..]
  {
    UnlinkMissesOnlyWithoutMatch(eq, xs, v);
    UnlinkSplicesFirstMatch(eq, xs, v);
    if Member(eq, xs, v) {
      var i :| 0 <= i < |xs| && eq(xs[i], v);
      assert eq(v, xs[i]);
    }
    if Unlink(eq, xs, v).Some? {
      var k :| FirstMatchAt(eq, xs, v, k) && Unlink(eq, xs, v).value == xs[..k] + xs[k + 1..];
      assert eq(xs[k], v);
      DeleteMatch(eq, xs, k, v);
      assert !Member(eq, Unlink(eq, xs, v).value, v) by {
        assert !eq(v, v) ==> false;
      }
    }
  }

  /** `remove`: no-op when `v` is absent; otherwise the head is unlinked if it
      matches, else the first interior match is spliced out, and the counter
      drops by one. */
  function Remove<T(!new)>(eq: (T, T) -> bool, s: Set<T>, v: T): (r: Set<T>)
    requires Equivalence(eq) && Valid(eq, s)
    ensures Valid(eq, r)
    ensures !Member(eq, r.chain, v)
    ensures !Member(eq, s.chain, v) ==> r == s
    ensures Member(eq, s.chain, v) ==>
      && r.count == s.count - 1
      && exists k :: 0 <= k < |s.chain| && eq(s.chain[k], v) && r.chain == s.chain[..k] + s.chain[k + 1..]
  {
    if !Contains(eq, s, v) then s
    else if eq(s.chain[0], v) then
      DeleteMatch(eq, s.chain, 0, v);
      assert s.chain[1..] == s.chain[..0] + s.chain[1..];
      Set(s.chain[1..], s.count - 1)
    else
      UnlinkKeepsInvariant(eq, s.chain, v);
      match Unlink(eq, s.chain, v)
      case None => s
      case Some(rest) => Set(rest, s.count - 1)
  }

  /** Removal takes out exactly the class of `v`: every other value keeps its
      presence. */
  lemma RemoveKeepsOthers<T(!new)>(eq: (T, T) -> bool, s: Set<T>, v: T)
    requires Equivalence(eq) && Valid(eq, s)
    ensures forall x :: Member(eq, Remove(eq, s, v).chain, x) <==> Member(eq, s.chain, x) && !eq(x, v)
  {
    var r := Remove(eq, s, v);
    if Member(eq, s.chain, v) {
      var k :| 0 <= k < |s.chain| && eq(s.chain[k], v) && r.chain == s.chain[..k] + s.chain[k + 1..];
      DeleteMatch(eq, s.chain, k, v);
    } else {
      forall x ensures Member(eq, s.chain, x) ==> !eq(x, v) {
        MemberRespectsEq(eq, s.chain, x, v);
      }
    }
  }

  /** `clear`: every node released, null head, zero size. */
  function Clear<T>(s: Set<T>): (r: Set<T>)
    ensures r == Empty()
  {
    Set([], 0)
  }

  /** After `clear` the set is empty, clearing again changes nothing, and the
      next `add` behaves as on a freshly built set. */
  lemma ClearThenAdd<T(!new)>(eq: (T, T) -> bool, s: Set<T>, v: T)
    ensures Size(Clear(s)) == 0 && IsEmpty(Clear(s))
    ensures Clear(Clear(s)) == Clear(s)
    ensures Add(eq, Clear(s), v) == Set([v], 1)
  {
  }

  // ---------------------------------------------------------------------
  // Positional access

  /** `operator[]`: out-of-bound positions raise the error; otherwise the walk
      counts nodes from the head and returns the one it stopped at. The chain
      position `current` plays the node pointer, `|s.chain|` the null link. */
  method At<T>(s: Set<T>, index: int) returns (r: Result<T, SetError>)
    requires CountConsistent(s)
    ensures r.Failure? <==> index < 0 || index >= Size(s)
    ensures r.Failure? ==> r.error == IndexOutOfBound(OutOfBoundMessage)
    ensures r.Success? ==> r.value == s.chain[index]
  {
    if index < 0 || index >= s.count {
      return Failure(IndexOutOfBound(OutOfBoundMessage));
    }
    var i := 0;
    var current := 0;
    var found := false;
    var previous := 0;
    while current < |s.chain| && !found
      invariant current == i && 0 <= current <= |s.chain|
      invariant !found ==> current <= index
      invariant found ==> previous == index
      invariant current > 0 ==> previous == current - 1
      decreases |s.chain| - current
    {
      if index == i {
        found := true;
      }
      i := i + 1;
      previous := current;
      current := current + 1;
    }
    return Success(s.chain[previous]);
  }

  // ---------------------------------------------------------------------
  // Whole-set equality

  /** The loop of `operator==`: every value of `ys`, in order, is looked up
      with `contains` in `s`; the first miss ends the scan. */
  function AllContained<T>(eq: (T, T) -> bool, ys: seq<T>, s: Set<T>): (b: bool)
    ensures b <==> Subsumed(eq, ys, s.chain)
  {
    if |ys| == 0 then true
    else
      assert forall i :: 1 <= i < |ys| ==> ys[1..][i - 1] == ys[i];
      Contains(eq, s, ys[0]) && AllContained(eq, ys[1..], s)
  }

  /** `operator==`: different sizes are unequal, two empty sets are equal,
      otherwise every value of `b` must be found in `a`. */
  function Equals<T>(eq: (T, T) -> bool, a: Set<T>, b: Set<T>): (r: bool)
    ensures r ==> Size(a) == Size(b)
    ensures Size(a) == Size(b) == 0 ==> r
    ensures CountConsistent(b) && Size(a) == Size(b) ==> (r <==> Subsumed(eq, b.chain, a.chain))
  {
    if a.count != b.count then false
    else if IsEmpty(a) && IsEmpty(b) then true
    else |b.chain| > 0 && AllContained(eq, b.chain, a)
  }

  /** On valid sets `operator==` is exactly membership equality: insertion
      order plays no part. */
  lemma EqualsIffSameMembers<T(!new)>(eq: (T, T) -> bool, a: Set<T>, b: Set<T>)
    requires Equivalence(eq) && Valid(eq, a) && Valid(eq, b)
    ensures Equals(eq, a, b) <==> SameMembers(eq, a.chain, b.chain)
  {
    SameMembersIffSubsumed(eq, a.chain, b.chain);
    if SameMembers(eq, a.chain, b.chain) {
      SameMembersSameLength(eq, a.chain, b.chain);
    }
    if Equals(eq, a, b) && |b.chain| > 0 {
      SameLengthSubsumedSameMembers(eq, a.chain, b.chain);
    }
  }

  /** `operator==` is an equivalence on valid sets. */
  lemma EqualsIsEquivalence<T(!new)>(eq: (T, T) -> bool, a: Set<T>, b: Set<T>, c: Set<T>)
    requires Equivalence(eq) && Valid(eq, a) && Valid(eq, b) && Valid(eq, c)
    ensures Equals(eq, a, a)
    ensures Equals(eq, a, b) ==> Equals(eq, b, a)
    ensures Equals(eq, a, b) && Equals(eq, b, c) ==> Equals(eq, a, c)
  {
    EqualsIffSameMembers(eq, a, a);
    EqualsIffSameMembers(eq, a, b);
    EqualsIffSameMembers(eq, b, a);
    EqualsIffSameMembers(eq, b, c);
    EqualsIffSameMembers(eq, a, c);
  }

  // ---------------------------------------------------------------------
  // Bulk insertion: range constructor, copy constructor, assignment

  /** Feeds each value of `xs` that `keep` admits, in order, through `add`:
      the loop shared by the range constructor, the copy constructor and the
      free combinators. Earlier values keep their place. */
  function AddEach<T(!new)>(eq: (T, T) -> bool, acc: Set<T>, xs: seq<T>, keep: T -> bool): (r: Set<T>)
    ensures Valid(eq, acc) ==> Valid(eq, r)
    ensures acc.chain <= r.chain
    decreases |xs|
  {
    if |xs| == 0 then acc
    else AddEach(eq, if keep(xs[0]) then Add(eq, acc, xs[0]) else acc, xs[1..], keep)
  }

  /** One `add` followed by more values holds what the plain concatenation
      holds: a skipped duplicate was already represented. */
  lemma AddThenMembers<T(!new)>(eq: (T, T) -> bool, acc: Set<T>, x: T, tail: seq<T>, v: T)
    requires Equivalence(eq)
    ensures Member(eq, Add(eq, acc, x).chain + tail, v) <==> Member(eq, acc.chain + ([x] + tail), v)
  {
    if Member(eq, acc.chain, x) {
      MemberConcat(eq, acc.chain, [x] + tail, v);
      MemberConcat(eq, [x], tail, v);
      MemberConcat(eq, acc.chain, tail, v);
      assert Member(eq, [x], v) <==> eq(x, v) by {
        assert [x][0] == x;
      }
      MemberRespectsEq(eq, acc.chain, x, v);
    } else {
      assert Add(eq, acc, x).chain + tail == acc.chain + ([x] + tail);
    }
  }

  /** What bulk insertion holds: the old values and every admitted value. */
  lemma {:induction false} AddEachMembers<T(!new)>(eq: (T, T) -> bool, acc: Set<T>, xs: seq<T>, keep: T -> bool)
    requires Equivalence(eq)
    ensures forall v :: Member(eq, AddEach(eq, acc, xs, keep).chain, v) <==> Member(eq, acc.chain + Filter(xs, keep), v)
    decreases |xs|
  {
    if |xs| == 0 {
      assert acc.chain + Filter(xs, keep) == acc.chain;
    } else {
      var x := xs[0];
      var acc' := if keep(x) then Add(eq, acc, x) else acc;
      AddEachMembers(eq, acc', xs[1..], keep);
      var tail := Filter(xs[1..], keep);
      if keep(x) {
        assert Filter(xs, keep) == [x] + tail;
        forall v ensures Member(eq, acc'.chain + tail, v) <==> Member(eq, acc.chain + ([x] + tail), v) {
          AddThenMembers(eq, acc, x, tail, v);
        }
      } else {
        assert Filter(xs, keep) == tail;
      }
    }
  }

  /** Dropping one value from a duplicate-free chain leaves it duplicate-free. */
  lemma UniqueWithout<T>(eq: (T, T) -> bool, p: seq<T>, x: T, q: seq<T>)
    requires Unique(eq, p + [x] + q)
    ensures Unique(eq, p + q)
  {
    var full := p + [x] + q;
    forall i, j | 0 <= i < j < |p + q| ensures !eq((p + q)[i], (p + q)[j]) {
      var i' := if i < |p| then i else i + 1;
      var j' := if j < |p| then j else j + 1;
      assert (p + q)[i] == full[i'];
      assert (p + q)[j] == full[j'];
    }
  }

  /** When the old chain and the input together are duplicate-free, no `add`
      is absorbed: the admitted values land after the old ones, in input
      order. This is the copy constructor, `filter_out` and `operator-`. */
  lemma {:induction false} AddEachAppendsFiltered<T(!new)>(eq: (T, T) -> bool, acc: Set<T>, xs: seq<T>, keep: T -> bool)
    requires CountConsistent(acc)
    requires Unique(eq, acc.chain + xs)
    ensures AddEach(eq, acc, xs, keep) == Set(acc.chain + Filter(xs, keep), acc.count + |Filter(xs, keep)|)
    decreases |xs|
  {
    if |xs| == 0 {
      assert Filter(xs, keep) == [];
    } else {
      assert acc.chain + xs == acc.chain + [xs[0]] + xs[1..];
      if keep(xs[0]) {
        assert !Member(eq, acc.chain, xs[0]) by {
          forall i | 0 <= i < |acc.chain| ensures !eq(acc.chain[i], xs[0]) {
            assert (acc.chain + xs)[i] == acc.chain[i];
            assert (acc.chain + xs)[|acc.chain|] == xs[0];
          }
        }
        var acc' := Add(eq, acc, xs[0]);
        assert acc'.chain + xs[1..] == acc.chain + xs;
        AddEachAppendsFiltered(eq, acc', xs[1..], keep);
        assert Filter(xs, keep) == [xs[0]] + Filter(xs[1..], keep);
      } else {
        UniqueWithout(eq, acc.chain, xs[0], xs[1..]);
        AddEachAppendsFiltered(eq, acc, xs[1..], keep);
        assert Filter(xs, keep) == Filter(xs[1..], keep);
      }
    }
  }

  /** A value no element of `ys` matches does not change which of them are
      unmatched. */
  lemma {:induction false} UnmatchedIgnoresUnrelated<T>(eq: (T, T) -> bool, ys: seq<T>, xs: seq<T>, x: T)
    requires forall i :: 0 <= i < |ys| ==> !eq(x, ys[i])
    ensures Unmatched(eq, ys, xs + [x]) == Unmatched(eq, ys, xs)
    decreases |ys|
  {
    if |ys| > 0 {
      assert Member(eq, xs + [x], ys[0]) <==> Member(eq, xs, ys[0]) by {
        if Member(eq, xs + [x], ys[0]) {
          var k :| 0 <= k < |xs + [x]| && eq((xs + [x])[k], ys[0]);
          assert k < |xs|;
          assert (xs + [x])[k] == xs[k];
        }
        if Member(eq, xs, ys[0]) {
          var k :| 0 <= k < |xs| && eq(xs[k], ys[0]);
          assert (xs + [x])[k] == xs[k];
        }
      }
      UnmatchedIgnoresUnrelated(eq, ys[1..], xs, x);
    }
  }

  /** Adding every value of a duplicate-free `xs` appends exactly those not
      already present, in input order. This is `operator+`. */
  lemma {:induction false} AddEachAppendsUnmatched<T(!new)>(eq: (T, T) -> bool, acc: Set<T>, xs: seq<T>)
    requires CountConsistent(acc) && Unique(eq, xs)
    ensures AddEach(eq, acc, xs, Always) ==
      Set(acc.chain + Unmatched(eq, xs, acc.chain), acc.count + |Unmatched(eq, xs, acc.chain)|)
    decreases |xs|
  {
    if |xs| == 0 {
      assert acc.chain + Unmatched(eq, xs, acc.chain) == acc.chain;
    } else {
      var x := xs[0];
      var tail := xs[1..];
      assert Unique(eq, tail) by {
        forall i, j | 0 <= i < j < |tail| ensures !eq(tail[i], tail[j]) {
          assert tail[i] == xs[i + 1] && tail[j] == xs[j + 1];
        }
      }
      var acc' := Add(eq, acc, x);
      assert AddEach(eq, acc, xs, Always) == AddEach(eq, acc', tail, Always);
      AddEachAppendsUnmatched(eq, acc', tail);
      if Member(eq, acc.chain, x) {
        assert acc' == acc;
        assert Unmatched(eq, xs, acc.chain) == Unmatched(eq, tail, acc.chain);
      } else {
        assert acc'.chain == acc.chain + [x];
        forall i | 0 <= i < |tail| ensures !eq(x, tail[i]) {
          assert tail[i] == xs[i + 1];
        }
        UnmatchedIgnoresUnrelated(eq, tail, acc.chain, x);
        assert Unmatched(eq, xs, acc.chain) == [x] + Unmatched(eq, tail, acc.chain);
        assert acc'.chain + Unmatched(eq, tail, acc'.chain) == acc.chain + Unmatched(eq, xs, acc.chain);
      }
    }
  }

  /** The range constructor `Set(b, e)`: every value the range yields goes
      through `add`. The result is duplicate-free, holds exactly the input's
      classes, and is the input itself when that has no duplicates. */
  function FromRange<T(!new)>(eq: (T, T) -> bool, xs: seq<T>): (r: Set<T>)
    ensures Valid(eq, r)
    ensures Equivalence(eq) ==> SameMembers(eq, r.chain, xs)
    ensures Unique(eq, xs) ==> r.chain == xs && Size(r) == |xs|
  {
    FromRangeFacts(eq, xs);
    AddEach(eq, Empty(), xs, Always)
  }

  lemma FromRangeFacts<T(!new)>(eq: (T, T) -> bool, xs: seq<T>)
    ensures Equivalence(eq) ==> SameMembers(eq, AddEach(eq, Empty(), xs, Always).chain, xs)
    ensures Unique(eq, xs) ==> AddEach(eq, Empty(), xs, Always) == Set(xs, |xs|)
  {
    FilterAlways(xs);
    assert Empty<T>().chain + xs == xs;
    if Equivalence(eq) {
      AddEachMembers(eq, Empty(), xs, Always);
    }
    if Unique(eq, xs) {
      AddEachAppendsFiltered(eq, Empty(), xs, Always);
    }
  }

  lemma {:induction false} FilterAlways<T>(xs: seq<T>)
    ensures Filter(xs, Always) == xs
    decreases |xs|
  {
    if |xs| > 0 {
      FilterAlways(xs[1..]);
    }
  }

  /** Every value of a duplicate-free chain is one class: the range
      constructor's size counts the distinct classes of its input, whichever
      representatives one picks. */
  lemma SizeCountsClasses<T(!new)>(eq: (T, T) -> bool, xs: seq<T>, reps: seq<T>)
    requires Equivalence(eq)
    requires Unique(eq, reps) && SameMembers(eq, reps, xs)
    ensures Size(FromRange(eq, xs)) == |reps|
  {
    var r := FromRange(eq, xs);
    SameMembersSameLength(eq, r.chain, reps);
  }

  /** Inserting the same values in any order gives `==` sets. */
  lemma InsertionOrderIrrelevant<T(!new)>(eq: (T, T) -> bool, xs: seq<T>, ys: seq<T>)
    requires Equivalence(eq)
    requires multiset(xs) == multiset(ys)
    ensures Equals(eq, FromRange(eq, xs), FromRange(eq, ys))
  {
    forall v ensures Member(eq, xs, v) <==> Member(eq, ys, v) {
      if Member(eq, xs, v) {
        var i :| 0 <= i < |xs| && eq(xs[i], v);
        assert xs[i] in multiset(ys);
        var j :| 0 <= j < |ys| && ys[j] == xs[i];
      }
      if Member(eq, ys, v) {
        var i :| 0 <= i < |ys| && eq(ys[i], v);
        assert ys[i] in multiset(xs);
        var j :| 0 <= j < |xs| && xs[j] == ys[i];
      }
    }
    EqualsIffSameMembers(eq, FromRange(eq, xs), FromRange(eq, ys));
  }

  /** The copy constructor: re-adds the source's values in chain order. A
      valid source is reproduced node for node. */
  function Copy<T(!new)>(eq: (T, T) -> bool, s: Set<T>): (r: Set<T>)
    ensures Valid(eq, r)
    ensures Valid(eq, s) ==> r == s
    ensures Equivalence(eq) ==> SameMembers(eq, r.chain, s.chain)
  {
    FromRange(eq, s.chain)
  }

  /** A copy is `==` to its source. */
  lemma CopyEqualsSource<T(!new)>(eq: (T, T) -> bool, s: Set<T>)
    requires Equivalence(eq) && Valid(eq, s)
    ensures Equals(eq, Copy(eq, s), s)
  {
    EqualsIsEquivalence(eq, s, s, s);
  }

  /** `operator=`: unless the target is the source itself (`aliased`), a full
      copy is built first and then swapped in. Either way the target ends up
      as the source, and self-assignment changes nothing. */
  function Assign<T(!new)>(eq: (T, T) -> bool, target: Set<T>, source: Set<T>, aliased: bool): (r: Set<T>)
    requires aliased ==> target == source
    ensures Valid(eq, source) ==> r == source
    ensures aliased ==> r == target
  {
    if aliased then target
    else
      var tmp := Copy(eq, source);
      Set(tmp.chain, tmp.count)
  }
}
