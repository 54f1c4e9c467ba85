/**
 The `assignmentUniqueNo` row of the sequence collection and the two
 functions that touch it. The collection only ever holds this one row, so it
 is modelled as an optional counter: `None` when the row is absent, `Some(n)`
 when its `seq` field holds `n`.
 */
module Sequence {
  import opened Wrappers

  type Counter = Option<int>

  /** The value the row holds; an absent row reads as the schema default 0 */
  function Current(c: Counter): int
  {
    c.GetOr(0)
  }

  /**
   `getNextUniqueNo`: an atomic `$inc` of 1 with upsert, returning the
   document after the update. Returns the drawn number and the new row.
   */
  function NextUniqueNo(c: Counter): (r: (int, Counter))
    ensures r.1.Some? && r.1.value == r.0
    ensures r.0 > Current(c)
    ensures c.None? ==> r.0 == 1
    ensures c.Some? ==> r.0 == c.value + 1
  {
    var n := Current(c) + 1;
    (n, Some(n))
  }

  /** `initializeSequence`: creates the row at 0 only when it is absent */
  function InitializeSequence(c: Counter): (r: Counter)
    ensures r.Some?
    ensures c.Some? ==> r == c
    ensures c.None? ==> r == Some(0)
    ensures Current(r) == Current(c)
  {
    if c.None? then Some(0) else c
  }

  /** Initializing twice is the same as initializing once. */
  lemma InitializeIdempotent(c: Counter)
    ensures InitializeSequence(InitializeSequence(c)) == InitializeSequence(c)
  {
  }

  /** Initializing never changes the number the next draw returns. */
  lemma InitializeKeepsNextDraw(c: Counter)
    ensures NextUniqueNo(InitializeSequence(c)).0 == NextUniqueNo(c).0
  {
  }

  /**
   Two draws in a row return two consecutive numbers; with no row at all
   the first two draws are 1 and 2.
   */
  lemma ConsecutiveDraws(c: Counter)
    ensures NextUniqueNo(NextUniqueNo(c).1).0 == NextUniqueNo(c).0 + 1
    ensures c.None? ==> NextUniqueNo(c).0 == 1 && NextUniqueNo(NextUniqueNo(c).1).0 == 2
  {
  }
}
