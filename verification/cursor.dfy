/** `Set::const_iterator`: a forward cursor over the chain.

    The C++ iterator holds a pointer to a node, or null. Within one set a
    node is identified by its position in the chain, so a cursor is that
    position, and null is `PastEnd`. Comparing two cursors compares the nodes
    they denote, which is what the pointer comparison does. */
module SetCursor {
  import opened LinkedSet

  datatype Cursor = Node(index: nat) | PastEnd

  /** The cursor denotes a node of `s`: it may be dereferenced and advanced.
      The C++ code does neither check, so both are preconditions here. */
  ghost predicate Dereferenceable<T>(s: Set<T>, c: Cursor) {
    c.Node? && c.index < |s.chain|
  }

  /** How many steps are left before the cursor reaches `end()`. */
  function Remaining<T>(s: Set<T>, c: Cursor): (n: nat)
    requires c.Node? ==> c.index < |s.chain|
    ensures n == 0 <==> c == PastEnd
  {
    match c
    case PastEnd => 0
    case Node(i) => |s.chain| - i
  }

  /** The default constructor: a null pointer. */
  function Default(): (c: Cursor)
    ensures forall n: nat :: c != Node(n)
  {
    PastEnd
  }

  /** `end()`: a null pointer, whatever the set holds. */
  function End<T>(s: Set<T>): (c: Cursor)
    ensures !Dereferenceable(s, c)
    ensures c.Node? ==> c.index < |s.chain|
    ensures Remaining(s, c) == 0
  {
    PastEnd
  }

  /** `begin()`: the head pointer, which is null for an empty chain. */
  function Begin<T>(s: Set<T>): (c: Cursor)
    ensures c == End(s) <==> s.chain == []
    ensures c != End(s) ==> Dereferenceable(s, c) && c.index == 0
    ensures c.Node? ==> c.index < |s.chain| && Remaining(s, c) == |s.chain|
  {
    if |s.chain| == 0 then PastEnd else Node(0)
  }

  /** `operator*`: the value held by the node the cursor denotes. */
  function Deref<T>(s: Set<T>, c: Cursor): (v: T)
    requires Dereferenceable(s, c)
    ensures v == s.chain[c.index]
  {
    s.chain[c.index]
  }

  /** Prefix `operator++`: follow the `next` link; the last node's link is
      null. */
  function Next<T>(s: Set<T>, c: Cursor): (r: Cursor)
    requires Dereferenceable(s, c)
    ensures r.Node? ==> r.index < |s.chain|
    ensures Remaining(s, r) == Remaining(s, c) - 1
    ensures Dereferenceable(s, r) <==> c.index + 1 < |s.chain|
  {
    if c.index + 1 < |s.chain| then Node(c.index + 1) else PastEnd
  }

  /** Postfix `operator++`: the iterator moves on and the expression yields a
      copy taken before the step. The pair is (yielded copy, moved iterator). */
  function PostNext<T>(s: Set<T>, c: Cursor): (r: (Cursor, Cursor))
    requires Dereferenceable(s, c)
    ensures r.0 == c
    ensures r.1 == Next(s, c)
  {
    (c, Next(s, c))
  }

  /** `k` prefix increments in a row. */
  function Advance<T>(s: Set<T>, c: Cursor, k: nat): (r: Cursor)
    requires c.Node? ==> c.index < |s.chain|
    requires k <= Remaining(s, c)
    ensures r.Node? ==> r.index < |s.chain|
    ensures Remaining(s, r) == Remaining(s, c) - k
    decreases k
  {
    if k == 0 then c else Advance(s, Next(s, c), k - 1)
  }

  /** `k` steps from `begin()` reach the node at position `k`, and exactly
      `|chain|` steps reach `end()`: iteration visits the chain in order. */
  lemma {:induction false} AdvanceFromBegin<T>(s: Set<T>, k: nat)
    requires k <= |s.chain|
    ensures Advance(s, Begin(s), k) == if k < |s.chain| then Node(k) else PastEnd
    decreases k
  {
    if k > 0 {
      AdvanceFromBegin(s, k - 1);
      AdvanceLast(s, Begin(s), k - 1);
    }
  }

  /** One more step after `k` steps is the step taken from where they end. */
  lemma {:induction false} AdvanceLast<T>(s: Set<T>, c: Cursor, k: nat)
    requires c.Node? ==> c.index < |s.chain|
    requires k < Remaining(s, c)
    ensures Dereferenceable(s, Advance(s, c, k))
    ensures Advance(s, c, k + 1) == Next(s, Advance(s, c, k))
    decreases k
  {
    if k > 0 {
      AdvanceLast(s, Next(s, c), k - 1);
    }
  }

  /** Dereferencing after `k` increments from `begin()` reads position `k`:
      the iterator and `operator[]` see the same value at each position. */
  lemma DerefAfterAdvance<T>(s: Set<T>, k: nat)
    requires k < |s.chain|
    ensures Dereferenceable(s, Advance(s, Begin(s), k))
    ensures Deref(s, Advance(s, Begin(s), k)) == s.chain[k]
  {
    AdvanceFromBegin(s, k);
  }

  /** A default-constructed iterator compares equal to `end()` of any set,
      and so does a cursor run off the end of a chain. */
  lemma DefaultIsEnd<T>(s: Set<T>)
    ensures Default() == End(s)
    ensures Advance(s, Begin(s), |s.chain|) == Default()
  {
    AdvanceFromBegin(s, |s.chain|);
  }

  /** The loop `for (b = s.begin(), e = s.end(); b != e; ++b)` reading `*b`:
      it visits every node once, head first. */
  method Walk<T>(s: Set<T>) returns (visited: seq<T>)
    ensures visited == s.chain
  {
    visited := [];
    var b := Begin(s);
    var e := End(s);
    while b != e
      invariant b.Node? ==> b.index == |visited| < |s.chain|
      invariant b == PastEnd ==> |visited| == |s.chain|
      invariant visited == s.chain[..|visited|]
      decreases Remaining(s, b)
    {
      visited := visited + [Deref(s, b)];
      b := Next(s, b);
    }
  }
}
