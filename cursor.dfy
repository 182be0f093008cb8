/** A component iterator of a zip: a fused cursor over the elements it has left, whose
    `size_hint` may be loose by a fixed slack on either side, and the exact-size contract
    that the `TrustedIterator` marker promises. */
module Cursors {
  import opened Wrappers
  import opened SizeHints

  /** `rest` holds the elements still to come. The reported lower bound undershoots the
      remaining count by `lowSlack` (never below zero); the reported upper bound overshoots
      it by `highSlack`, or is absent when `highSlack` is `None`. */
  datatype Cursor<T> = Cursor(rest: seq<T>, lowSlack: nat, highSlack: Option<nat>) {

    function Remaining(): nat
    {
      |rest|
    }

    /** `Iterator::next`: the first remaining element, and the cursor moved past it; an
        exhausted cursor answers `None` and stays as it is. */
    function Pull(): (Option<T>, Cursor<T>)
    {
      if rest == [] then (None, this) else (Some(rest[0]), this.(rest := rest[1..]))
    }

    /** `Iterator::size_hint`: always truthful, and `(0, _)` once exhausted. */
    function Hint(): (h: SizeHint)
      ensures h.Bounds(Remaining())
      ensures Remaining() == 0 ==> h.lower == 0
    {
      SizeHint(if lowSlack <= |rest| then |rest| - lowSlack else 0,
               if highSlack.Some? then Some(|rest| + highSlack.value) else None)
    }

    /** The `TrustedIterator` promise: the hint is `(n, Some(n))` for the exact number `n`
        of elements left. */
    predicate Exact()
    {
      Hint() == SizeHint(Remaining(), Some(Remaining()))
    }
  }

  /** The exact-size promise holds "always": a cursor that keeps it keeps it after `next`,
      and then reports one element fewer. */
  lemma PullPreservesExact<T>(c: Cursor<T>)
    requires c.Exact()
    ensures c.Pull().1.Exact()
    ensures c.Remaining() > 0 ==> c.Pull().1.Hint() == SizeHint(c.Remaining() - 1, Some(c.Remaining() - 1))
  {
  }
}
