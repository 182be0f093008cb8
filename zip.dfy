/** The general lockstep combinator `Zip<(A, B, ..., M)>`, written once for any number of
    components of one element type. A tuple of the source is a sequence here. */
module Zips {
  import opened Wrappers
  import opened SizeHints
  import opened Cursors

  /** The size hints of the components, in component order. */
  function Hints<T>(cs: seq<Cursor<T>>): seq<SizeHint>
  {
    seq(|cs|, i requires 0 <= i < |cs| => cs[i].Hint())
  }

  /** The number of elements the shortest component has left. */
  function MinRemaining<T>(cs: seq<Cursor<T>>): (m: nat)
    requires |cs| > 0
    ensures forall i | 0 <= i < |cs| :: m <= cs[i].Remaining()
    ensures exists i | 0 <= i < |cs| :: cs[i].Remaining() == m
  {
    if |cs| == 1 then cs[0].Remaining()
    else
      var m' := MinRemaining(cs[1..]);
      assert forall i | 1 <= i < |cs| :: cs[i] == cs[1..][i - 1];
      Min(cs[0].Remaining(), m')
  }

  /** The position of the first exhausted component, or `|cs|` when none is. */
  function FirstExhausted<T>(cs: seq<Cursor<T>>): (k: nat)
    ensures k <= |cs|
    ensures forall i | 0 <= i < k :: cs[i].rest != []
    ensures k < |cs| ==> cs[k].rest == []
  {
    if cs == [] || cs[0].rest == [] then 0
    else
      assert forall i | 1 <= i < |cs| :: cs[i] == cs[1..][i - 1];
      1 + FirstExhausted(cs[1..])
  }

  /** The first element of every component, in component order. */
  function Heads<T>(cs: seq<Cursor<T>>): seq<T>
    requires forall i | 0 <= i < |cs| :: cs[i].rest != []
  {
    seq(|cs|, i requires 0 <= i < |cs| => cs[i].rest[0])
  }

  /** The components after `next` has been called on the first `k` of them. */
  function Advanced<T>(cs: seq<Cursor<T>>, k: nat): seq<Cursor<T>>
  {
    seq(|cs|, i requires 0 <= i < |cs| => if i < k then cs[i].Pull().1 else cs[i])
  }

  /** One call of `Zip::next`, as a value: the components are pulled left to right up to and
      including the first exhausted one. If none is exhausted the result is the tuple of
      their elements; otherwise it is `None`, the components before the exhausted one stay
      advanced and their elements are dropped, and the later ones are not touched. (Pulling
      the exhausted component leaves it as it is.) */
  function Step<T>(cs: seq<Cursor<T>>): (Option<seq<T>>, seq<Cursor<T>>)
  {
    var k := FirstExhausted(cs);
    (if k == |cs| then Some(Heads(cs)) else None, Advanced(cs, k))
  }

  /** Taking one element off every component takes one off the shortest. */
  lemma MinRemainingShift<T>(cs: seq<Cursor<T>>, cs': seq<Cursor<T>>)
    requires |cs'| == |cs| > 0
    requires forall i | 0 <= i < |cs| :: cs'[i].Remaining() + 1 == cs[i].Remaining()
    ensures MinRemaining(cs') + 1 == MinRemaining(cs)
  {
  }

  /** While every component has an element, a step yields the tuple of their first elements,
      moves every component on by exactly one, and leaves the zip one tuple shorter. */
  lemma StepYields<T>(cs: seq<Cursor<T>>)
    requires |cs| > 0 && MinRemaining(cs) > 0
    ensures Step(cs).0.Some?
    ensures |Step(cs).0.value| == |cs|
    ensures forall i | 0 <= i < |cs| :: Step(cs).0.value[i] == cs[i].rest[0]
    ensures |Step(cs).1| == |cs|
    ensures forall i | 0 <= i < |cs| :: Step(cs).1[i].rest == cs[i].rest[1..]
    ensures MinRemaining(Step(cs).1) == MinRemaining(cs) - 1
  {
  }

  /** Once some component is exhausted a step yields `None`. The components before the first
      exhausted one have each lost one element, the others are as they were, and the zip
      stays exhausted: every later step yields `None` too. */
  lemma StepEnds<T>(cs: seq<Cursor<T>>)
    requires |cs| > 0 && MinRemaining(cs) == 0
    ensures Step(cs).0 == None
    ensures |Step(cs).1| == |cs| && MinRemaining(Step(cs).1) == 0
    ensures FirstExhausted(cs) < |cs|
    ensures forall i | 0 <= i < FirstExhausted(cs) :: Step(cs).1[i].rest == cs[i].rest[1..]
    ensures forall i | FirstExhausted(cs) <= i < |cs| :: Step(cs).1[i] == cs[i]
  {
    var j :| 0 <= j < |cs| && cs[j].Remaining() == 0;
    var k := FirstExhausted(cs);
    assert k <= j;
    var cs' := Step(cs).1;
    assert cs'[k] == cs[k];
    assert MinRemaining(cs') <= cs'[k].Remaining();
  }

  /** The j-th element of every component, in component order. */
  function Column<T>(cs: seq<Cursor<T>>, j: nat): seq<T>
    requires forall i | 0 <= i < |cs| :: j < |cs[i].rest|
  {
    seq(|cs|, i requires 0 <= i < |cs| => cs[i].rest[j])
  }

  lemma ColumnShift<T>(cs: seq<Cursor<T>>, cs': seq<Cursor<T>>, j: nat)
    requires |cs'| == |cs| && j > 0
    requires forall i | 0 <= i < |cs| :: j < |cs[i].rest| && cs'[i].rest == cs[i].rest[1..]
    ensures Column(cs', j - 1) == Column(cs, j)
  {
  }

  /** Every tuple that repeated calls of `next` yield before the first `None`. */
  function Collect<T>(cs: seq<Cursor<T>>): seq<seq<T>>
    requires |cs| > 0
    decreases MinRemaining(cs)
  {
    if MinRemaining(cs) == 0 then []
    else
      StepYields(cs);
      [Step(cs).0.value] + Collect(Step(cs).1)
  }

  /** Repeated calls of `next` on components with `L1..LN` elements left yield exactly
      `min(L1..LN)` tuples before the first `None`. */
  lemma {:induction false} CollectLength<T>(cs: seq<Cursor<T>>)
    requires |cs| > 0
    ensures |Collect(cs)| == MinRemaining(cs)
    decreases MinRemaining(cs)
  {
    if MinRemaining(cs) > 0 {
      StepYields(cs);
      CollectLength(Step(cs).1);
    }
  }

  /** While the zip is not exhausted, the tuples it yields are the first elements of the
      components followed by what the advanced components yield. */
  lemma CollectCons<T>(cs: seq<Cursor<T>>)
    requires |cs| > 0 && MinRemaining(cs) > 0
    ensures |Step(cs).1| == |cs|
    ensures forall i | 0 <= i < |cs| :: Step(cs).1[i].rest == cs[i].rest[1..]
    ensures Collect(cs) == [Column(cs, 0)] + Collect(Step(cs).1)
  {
  }

  /** One call of `next` either ends the zip for good, or yields the first of the tuples
      still to come and leaves the rest to later calls. */
  lemma CollectStep<T>(cs: seq<Cursor<T>>)
    requires |cs| > 0
    ensures |Step(cs).1| == |cs|
    ensures Step(cs).0.Some? <==> MinRemaining(cs) > 0
    ensures Step(cs).0.None? ==> Collect(cs) == [] && MinRemaining(Step(cs).1) == 0
    ensures Step(cs).0.Some? ==>
      Collect(cs) == [Step(cs).0.value] + Collect(Step(cs).1) &&
      MinRemaining(Step(cs).1) < MinRemaining(cs)
  {
    if MinRemaining(cs) == 0 {
      StepEnds(cs);
    } else {
      StepYields(cs);
    }
  }

  /** The j-th tuple that repeated calls of `next` yield holds the j-th element of each
      component, in component order. */
  lemma {:induction false} CollectAt<T>(cs: seq<Cursor<T>>, j: nat)
    requires |cs| > 0 && j < MinRemaining(cs)
    ensures j < |Collect(cs)| && Collect(cs)[j] == Column(cs, j)
    decreases j
  {
    CollectCons(cs);
    if j > 0 {
      var cs' := Step(cs).1;
      MinRemainingShift(cs, cs');
      CollectAt(cs', j - 1);
      ColumnShift(cs, cs', j);
    }
  }

  /** Zipping components with `L1..LN` elements left yields exactly `min(L1..LN)` tuples,
      and the j-th tuple holds the j-th element of each component in component order. */
  lemma CollectZips<T>(cs: seq<Cursor<T>>)
    requires |cs| > 0
    ensures |Collect(cs)| == MinRemaining(cs)
    ensures forall j | 0 <= j < |Collect(cs)| :: Collect(cs)[j] == Column(cs, j)
  {
    CollectLength(cs);
    forall j | 0 <= j < |Collect(cs)| ensures Collect(cs)[j] == Column(cs, j) {
      CollectAt(cs, j);
    }
  }

  /** The hint `Zip::size_hint` reports is truthful for the number of tuples the zip will
      still yield, whatever slack the components' own hints carry. */
  lemma ZipHintSound<T>(cs: seq<Cursor<T>>)
    requires |cs| > 0
    ensures ZipHint(Hints(cs)).Bounds(MinRemaining(cs))
    ensures ZipHint(Hints(cs)).Bounds(|Collect(cs)|)
  {
    var ns := seq(|cs|, i requires 0 <= i < |cs| => cs[i].Remaining());
    var j :| 0 <= j < |cs| && cs[j].Remaining() == MinRemaining(cs);
    assert ns[j] == MinRemaining(cs);
    ZipHintBounds(Hints(cs), ns, MinRemaining(cs));
    CollectZips(cs);
  }

  /** `Zip<T>`: owns its components and nothing else. */
  class Zip<T> {
    var comps: seq<Cursor<T>>

    /** There is no zip of zero components. */
    ghost predicate Valid()
      reads this
    {
      |comps| > 0
    }

    /** `Zip::new`: takes the components as they are; it checks nothing and cannot fail. */
    constructor (t: seq<Cursor<T>>)
      requires |t| > 0
      ensures Valid() && comps == t
    {
      comps := t;
    }

    /** `Zip::next`: pulls from each component in order and stops at the first exhausted one. */
    method Next() returns (r: Option<seq<T>>)
      requires Valid()
      modifies this
      ensures Valid()
      ensures (r, comps) == Step(old(comps))
    {
      ghost var k := FirstExhausted(comps);
      ghost var cs := comps;
      var out: seq<T> := [];
      var i := 0;
      while i < |comps|
        invariant 0 <= i <= k
        invariant comps == Advanced(cs, i)
        invariant |out| == i && forall j | 0 <= j < i :: out[j] == cs[j].rest[0]
      {
        var (e, c) := comps[i].Pull();
        comps := comps[i := c];
        match e {
        case None =>
          assert i == k;
          assert comps == Advanced(cs, k);
          return None;
        case Some(x) =>
          out := out + [x];
        }
        i := i + 1;
      }
      assert out == Heads(cs);
      r := Some(out);
    }

    /** `Zip::size_hint`: the lower bound is the least of the components' lower bounds, the
        upper bound the least of those the components report (absent only if none reports
        one), and the estimate is truthful for the tuples still to come. */
    function SizeHint(): (h: SizeHint)
      reads this
      requires Valid()
      ensures IsMinLower(h.lower, Hints(comps))
      ensures IsMinReportedUpper(h.upper, Hints(comps))
      ensures h.Bounds(MinRemaining(comps))
    {
      ZipHintIsMin(Hints(comps));
      ZipHintSound(comps);
      ZipHint(Hints(comps))
    }
  }

  /** A caller's `for` loop over a `Zip`: calls `next` until it yields `None`. It collects
      exactly the tuples `Collect` describes, and leaves the zip exhausted. */
  method Drain<T>(z: Zip<T>) returns (out: seq<seq<T>>)
    requires z.Valid()
    modifies z
    ensures z.Valid()
    ensures out == Collect(old(z.comps))
    ensures MinRemaining(z.comps) == 0
  {
    ghost var cs0 := z.comps;
    out := [];
    while true
      invariant z.Valid()
      invariant out + Collect(z.comps) == Collect(cs0)
      decreases MinRemaining(z.comps)
    {
      ghost var before := z.comps;
      var t := z.Next();
      ghost var after := z.comps;
      CollectStep(before);
      assert t == Step(before).0 && after == Step(before).1;
      if t.None? {
        assert out + [] == Collect(cs0);
        return;
      }
      assert Collect(before) == [t.value] + Collect(after);
      assert (out + [t.value]) + Collect(after) == out + Collect(before);
      out := out + [t.value];
    }
  }
}
