# Set: a duplicate-free collection over a pluggable equality

This project models `Set<T, Eql>` from Set.h. It is a generic container that
never holds two values its equality functor `Eql` calls equal. It keeps the
values in a singly-linked chain in insertion order, with a separate
`unsigned int _size` counter. The model covers all of the following:

- the mutators `add`, `remove` and `clear`;
- the queries `contains`, `size` and `isEmpty`;
- positional access `operator[]` with its `set_index_out_of_bound` error;
- the order-insensitive `operator==`;
- the copy constructor, the copy-and-swap `operator=` and the range
  constructor;
- the forward `const_iterator`;
- the free functions `filter_out`, `operator+` and `operator-`.

Modules:

- `EqualityStrategy` (equality.dfy): the laws an `Eql` functor must obey.
  The functor is a parameter `eq: (T, T) -> bool`. Symmetry is needed as
  well as reflexivity and transitivity: `remove` tests its head with
  `eq(head, v)` and then walks the whole chain again, head included, with
  `eq(v, node)`.
- `Outcomes` (outcomes.dfy): `Option` and `Result`.
- `Membership` (membership.dfy): facts about presence up to `eq` in a
  sequence. It holds the counting argument that makes `operator==`
  (equal sizes, every value of one found in the other) the same as
  "same members".
- `LinkedSet` (linked_set.dfy): the class itself.
  - A set is its chain of values, head first, plus the counter.
  - The class invariant `Valid` says that the counter matches the chain and
    that no two values in the chain are equal.
  - Most operations are stated for every input: the invariant appears as
    an assumption inside their contracts, not as a precondition. Three
    operations have preconditions:
    - `LinkedSet.At` (`operator[]`) requires `CountConsistent(s)`: the
      bound test uses the counter, the walk uses the chain.
    - `LinkedSet.Remove` requires `Equivalence(eq)` and the class
      invariant `Valid(eq, s)`: its splice is only well-behaved for an
      equivalence on a duplicate-free chain.
    - `LinkedSet.Assign` requires `aliased ==> target == source`: the
      flag stands for the address test `this != &other`.
- `SetCursor` (cursor.dfy): `const_iterator`.
  - A cursor is a position in the chain or `PastEnd`, the null pointer.
  - `end()` and a default-constructed iterator are both `PastEnd`.
- `Combinators` (combinators.dfy): `filter_out`, `operator+` and
  `operator-`, plus the algebraic laws the test driver asserts.
  - `operator-` keeps the values of `A` that `B` contains. It is
    intersection, not difference, and is modelled that way as `Intersect`.
  - All three functions are the same loop: walk one set with a cursor and
    `add` each admitted value to a fresh set. `LinkedSet.AddEach` is that
    loop as a fold. `Combinators.AddAllByCursor` is the loop written with
    the cursor and proved equal to the fold.
- `Scenarios` (scenarios.dfy): the concrete inputs of main.cpp over `int`
  with `equals_int`. Most restate its assertions;
  `RangeWithDuplicateSize` derives the size of a set the test builds but
  never reads.

`operator==` is an equivalence on valid sets (`LinkedSet.EqualsIsEquivalence`).
main.cpp relies on this when it uses `Set` itself as an element type, with
`operator==` as the element functor (`equals_set`).

## Model

| member | source | states |
|---|---|---|
| LinkedSet.Empty | Set.h:104 | the default constructor gives a set whose counter matches its (empty) chain and which reports empty |
| LinkedSet.EmptyIsValid | Set.h:104 | a fresh set satisfies the class invariant under any functor and contains nothing |
| LinkedSet.ChainContains | Set.h:270-275 | the scan from the head returns true exactly when some node's value is `eq` to the probe |
| LinkedSet.Contains | Set.h:268-276 | `contains(v)` is true exactly when some stored value is `eq` to `v` |
| LinkedSet.Size | Set.h:249-251 | on a consistent set, `size()` is the number of nodes in the chain |
| LinkedSet.IsEmpty | Set.h:258-260 | on a consistent set, `isEmpty()` holds exactly when the chain has no nodes |
| LinkedSet.Add | Set.h:181-199 | a present value leaves the set unchanged; otherwise the value is linked after the tail and the counter grows by one; the invariant is preserved; afterwards the value is present |
| LinkedSet.Unlink | Set.h:218-227 | the splice loop of `remove` runs off the chain only when no node satisfies `eq(v, node)`, and otherwise unlinks exactly one node; the lemmas below add the converse and which node it is |
| LinkedSet.UnlinkMissesOnlyWithoutMatch | Set.h:218-227 | the splice loop runs off the chain exactly when no node satisfies `eq(v, node)` |
| LinkedSet.UnlinkSplicesFirstMatch | Set.h:218-227 | when the splice loop finds a match, it removes exactly the first node with `eq(v, node)` and keeps the others in order |
| LinkedSet.UnlinkKeepsInvariant | Set.h:216-228 | on a duplicate-free chain with an equivalence, a present value is always found, and the result is duplicate-free, one node shorter and free of `v` |
| LinkedSet.Remove | Set.h:206-229 | removal keeps the invariant and leaves `v` absent; an absent value changes nothing; a present one removes exactly one matching node, keeps the others in order, and lowers the counter by one |
| LinkedSet.RemoveKeepsOthers | Set.h:206-229 | after `remove(v)` a value is present exactly when it was present before and is not `eq` to `v` |
| LinkedSet.Clear | Set.h:235-244 | `clear()` leaves the same state as the default constructor |
| LinkedSet.ClearThenAdd | main.cpp:623-627 | after `clear()` the size is 0 and the set is empty; clearing again changes nothing; the next `add(v)` gives the one-node set `{v}` |
| LinkedSet.At | Set.h:285-303 | `operator[]` fails with `set_index_out_of_bound` and its message exactly when `index < 0` or `index >= size()`; otherwise it returns the value at 0-based position `index` |
| LinkedSet.AllContained | Set.h:318-328 | the loop of `operator==` succeeds exactly when every value of the other set is present in this one |
| LinkedSet.Equals | Set.h:313-330 | `operator==` is false for different sizes and true for two empty sets; otherwise it holds exactly when every value of the right operand is present in the left |
| LinkedSet.EqualsIffSameMembers | Set.h:313-330 | for valid sets under an equivalence, `==` holds exactly when both sets contain the same values, whatever their order |
| LinkedSet.EqualsIsEquivalence | Set.h:313-330 | `operator==` on valid sets is reflexive, symmetric and transitive |
| LinkedSet.AddEach | Set.h:164-172 | repeated `add` keeps the invariant and only ever appends to the chain |
| LinkedSet.AddThenMembers | Set.h:181-199 | one `add` followed by more values holds the same values as the plain concatenation |
| LinkedSet.AddEachMembers | Set.h:164-172 | after repeated `add`, a value is present exactly when it was present before or is `eq` to an admitted input |
| LinkedSet.AddEachAppendsFiltered | Set.h:164-172 | adding values none of which duplicates another or the existing set appends exactly the admitted values, in input order |
| LinkedSet.AddEachAppendsUnmatched | Set.h:515-528 | adding a duplicate-free sequence appends exactly the values not already present, in input order, and counts them |
| LinkedSet.FromRange | Set.h:164-172 | the range constructor gives a valid set with exactly the input's values up to `eq`; a duplicate-free input is kept as is, in order |
| LinkedSet.SizeCountsClasses | Set.h:164-172 | the size of a set built from a range is the number of distinct equivalence classes among the inputs |
| LinkedSet.InsertionOrderIrrelevant | Set.h:164-172 | two ranges holding the same values in any order build `==` sets |
| LinkedSet.Copy | Set.h:116-127 | the copy constructor gives a valid set with the source's values; a valid source is reproduced node for node |
| LinkedSet.CopyEqualsSource | main.cpp:433-434 | a copy of a valid set is `==` to it |
| LinkedSet.Assign | Set.h:138-145 | after `operator=` the target equals a valid source; self-assignment leaves the target as it was |
| SetCursor.Default | Set.h:364 | a default-constructed iterator denotes no node |
| SetCursor.End | Set.h:473-475 | `end()` denotes no node and has no steps left |
| SetCursor.Begin | Set.h:465-467 | `begin()` equals `end()` exactly for an empty set; otherwise it denotes the head node |
| SetCursor.Deref | Set.h:392-394 | `*it` is the value held by the node at the cursor's position |
| SetCursor.DerefAfterAdvance | Set.h:392-394 | `*it` after `k` increments from `begin()` is the value at position `k`, the one `operator[]` returns for `k` |
| SetCursor.Next | Set.h:419-422 | `++it` moves one node on; it reaches `end()` exactly from the last node; the steps left drop by one |
| SetCursor.PostNext | Set.h:409-413 | `it++` yields the cursor as it was before the step, while the iterator itself moves one node on |
| SetCursor.Advance | Set.h:419-422 | `k` increments use up exactly `k` of the remaining steps |
| SetCursor.AdvanceLast | Set.h:419-422 | one more increment after `k` increments is the increment from where they end |
| SetCursor.AdvanceFromBegin | Set.h:465-475 | `k` increments from `begin()` reach the node at position `k`, and `size()` increments reach `end()` |
| SetCursor.DefaultIsEnd | main.cpp:743-745 | a default-constructed iterator equals `end()` of any set and equals an iterator run off the end |
| SetCursor.Walk | main.cpp:609-610 | the `begin()`-to-`end()` loop visits every stored value once, head first |
| Combinators.AddEachSnoc | Set.h:494-496 | adding `xs + [x]` is adding `xs` and then one more step of the loop |
| Combinators.AddAllByCursor | Set.h:489-503 | the iterator loop shared by `filter_out`, `operator+` and `operator-` computes exactly the repeated `add` of the source's chain |
| Combinators.FilterOut | Set.h:489-503 | `filter_out` gives a valid set; from a valid set it keeps exactly the values satisfying the predicate, in order; a value is present exactly when it is `eq` to an admitted value of the source |
| Combinators.Union | Set.h:515-528 | `A + B` is valid; for valid operands it is `A` followed by the values of `B` not in `A`; a value is present exactly when it is in `A` or in `B` |
| Combinators.Intersect | Set.h:539-552 | `A - B` is valid; for a valid `A` it keeps, in the order of `A`, the values `B` contains; a value is present exactly when it is in both |
| Combinators.SameContentsEqual | Set.h:313-330 | valid sets with the same members are `==` |
| Combinators.UnionCommutes | main.cpp:415 | `a + b == b + a` |
| Combinators.UnionIdempotent | main.cpp:416 | `a + a` is `a`, node for node |
| Combinators.UnionEmptyIdentity | main.cpp:417 | `a + empty` and `empty + a` are `a`, node for node |
| Combinators.UnionAssociative | main.cpp:418 | `(a + b) + c == a + (b + c)` |
| Combinators.UnionAbsorbsSubset | main.cpp:419 | `a + sub` is `a`, node for node, when every value of `sub` is in `a` |
| Combinators.IntersectDisjoint | main.cpp:421 | sets with no common value intersect to the empty set |
| Combinators.IntersectCommutes | main.cpp:422 | `a - b == b - a` |
| Combinators.IntersectIdempotent | main.cpp:423 | `a - a` is `a`, node for node |
| Combinators.IntersectEmpty | main.cpp:424 | `a - empty` and `empty - a` are the empty set |
| Combinators.IntersectRotates | main.cpp:425 | `a - b - c == c - a - b` |
| Combinators.IntersectSubset | main.cpp:426 | `a - sub == sub` when every value of `sub` is in `a` |
| Combinators.UnionIntersectSizes | Set.h:515-552 | inclusion-exclusion: `size(a + b) + size(a - b) == size(a) + size(b)` |
| Scenarios.IntEqIsEquivalence | main.cpp:322-326 | `equals_int` is an equivalence |
| Scenarios.Upto | main.cpp:578 | the values `0 .. n - 1` that the test loop adds |
| Scenarios.UptoIsUnique | main.cpp:578 | those values are pairwise unequal under `equals_int` |
| Scenarios.EvensBelow | main.cpp:350-352 | `is_even` admits exactly half of `0 .. 2n - 1` |
| Scenarios.FilterEvensHalves | main.cpp:578-580 | filtering `0 .. 2n - 1` by `is_even` gives a set of size `n` |
| Scenarios.FilterEvensOfHundred | main.cpp:578-580 | `filter_out` of `0 .. 99` by `is_even` has size 50 |
| Scenarios.RangeWithDuplicateSize | main.cpp:705-706 | the range constructor over `{1, 2, 4, 5, 5}` gives size 4; the test builds this set (as `Set<double, equals_int>`) and never reads it, so the size is derived here |
| Scenarios.ConstIteratorScenario | main.cpp:719-745 | the iterator walk over `{1, 5, 9, 3, 0}` reads 9 and 3 at the third and fourth nodes, and `((++it)++)++` lands on a default iterator |
| Scenarios.IndexAfterRemoveScenario | main.cpp:790-806 | after adding one value twice and four more, the size is 5; after removing the first value, `[0]` and `[3]` give the second and fifth values and `[4]` fails |
| Scenarios.EmptySetScenario | main.cpp:398-404 | removing from an empty set changes nothing, and indexing it fails |
| Scenarios.ClearAndCompare | main.cpp:634-642 | a copy is `==` to its source; clearing one side breaks `==` unless the set was empty; clearing both restores it |

## Left out

- Output: `operator<<` for the set and its nodes (Set.h:87-89, 337-344) only
  renders text.
- Allocation failure: the model treats allocation as total. So it leaves
  out the `try`/`catch` blocks that `clear()` and rethrow `std::bad_alloc`.
  These are in the copy constructor, the range constructor, `filter_out`,
  `operator+` and `operator-`.
- Object lifetime: the destructor (Set.h:152-154) and the node's copy
  constructor and assignment (Set.h:52-79) only manage memory.
- LinkedSet.Copy: a copy is a new value, so it is trivially independent of its
  source. The deep copy that makes this true in C++ has nothing left to
  state.
- LinkedSet.Assign: the test `this != &other` compares addresses. It becomes the
  parameter `aliased`, which the caller sets only for the same set.
- SetCursor.Deref: `operator->` (Set.h:401-403) returns the address of the
  value. The model has `operator*` only.
- SetCursor: cursor equality compares positions. This matches pointer
  comparison for cursors of the same set. Comparing cursors of two
  different sets is not modelled.
- SetCursor.Next: dereferencing or incrementing `end()` dereferences a null
  pointer in C++. In the model these are preconditions.
- LinkedSet.FromRange: the range's element type is converted with `static_cast<T>`
  (Set.h:167). The model takes a sequence that is already converted.
- LinkedSet.Size: `_size` is an `unsigned int` and the `operator[]` index is an
  `int`. The counter is modelled as unbounded, so wrap-around after 2^32
  adds is not modelled.
- LinkedSet.Remove: requires an equivalence. If the functor is not symmetric, the
  head test `eq(head, v)` can fail while the loop's `eq(v, head)` succeeds.
  The loop then unlinks the head through `previous == current` and leaves
  `_head` dangling. This is outside what the functor must satisfy.
- Combinators.FilterOut: the predicate is a pure function. A stateful C++ functor,
  whose answers depend on earlier calls, is not modelled.
