/** The equality strategy a Set is parameterised by: the `Eql` functor of the
    C++ template, here a plain two-argument function. The element type is
    assumed to offer nothing but this relation; every membership decision of
    the Set (insertion, removal, lookup, whole-set equality) goes through it. */
module EqualityStrategy {

  ghost predicate Reflexive<T(!new)>(eq: (T, T) -> bool) {
    forall x :: eq(x, x)
  }

  ghost predicate Symmetric<T(!new)>(eq: (T, T) -> bool) {
    forall x, y :: eq(x, y) ==> eq(y, x)
  }

  ghost predicate Transitive<T(!new)>(eq: (T, T) -> bool) {
    forall x, y, z :: eq(x, y) && eq(y, z) ==> eq(x, z)
  }

  /** What the container demands of the functor it is given: a consistent
      equality that partitions the element type into classes. Symmetry is
      needed because `remove` asks `eq(stored, value)` for the head and then
      walks the whole chain again, head included, asking `eq(value, stored)`. */
  ghost predicate Equivalence<T(!new)>(eq: (T, T) -> bool) {
    && Reflexive(eq)
    && Symmetric(eq)
    && Transitive(eq)
  }
}
