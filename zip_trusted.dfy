/** `ZipTrusted<(A, B, ..., M)>`: the lockstep combinator over components that keep the
    exact-size promise. It caches the number of tuples left and relies on that count, rather
    than on the components, to decide when iteration ends. */
module TrustedZips {
  import opened Wrappers
  import opened SizeHints
  import opened Cursors
  import opened Zips

  /** Every component keeps the exact-size promise. */
  predicate AllExact<T>(cs: seq<Cursor<T>>)
  {
    forall i | 0 <= i < |cs| :: cs[i].Exact()
  }

  /** Over components that keep the exact-size promise, the general combination of hints is
      itself exact: `(m, Some(m))` for the least remaining count `m`. */
  lemma ExactZipHint<T>(cs: seq<Cursor<T>>)
    requires |cs| > 0 && AllExact(cs)
    ensures ZipHint(Hints(cs)) == SizeHint(MinRemaining(cs), Some(MinRemaining(cs)))
  {
    var hs := Hints(cs);
    var m := MinRemaining(cs);
    forall i | 0 <= i < |cs|
      ensures hs[i].lower == cs[i].Remaining() && hs[i].upper == Some(cs[i].Remaining())
    {
      assert cs[i].Exact();
    }
    ZipHintIsMin(hs);
    var r := ZipHint(hs);
    var j :| 0 <= j < |cs| && cs[j].Remaining() == m;
    var a :| 0 <= a < |hs| && hs[a].lower == r.lower;
    assert r.lower == m by {
      assert r.lower <= hs[j].lower;
      assert m <= cs[a].Remaining();
    }
    assert r.upper.Some? by {
      assert hs[0].upper.Some?;
    }
    var b :| 0 <= b < |hs| && hs[b].upper == r.upper;
    assert r.upper.value == m by {
      assert r.upper.value <= hs[j].upper.value;
      assert m <= cs[b].Remaining();
    }
  }

  /** Over components that keep the exact-size promise, the least lower bound is the exact
      number of elements the shortest component has left: the value `set_length` caches. */
  lemma ExactMinLower<T>(cs: seq<Cursor<T>>, len: nat)
    requires |cs| > 0 && AllExact(cs)
    requires (forall i | 0 <= i < |cs| :: len <= cs[i].Hint().lower)
    requires exists i | 0 <= i < |cs| :: cs[i].Hint().lower == len
    ensures len == MinRemaining(cs)
    ensures IsMinLower(len, Hints(cs))
  {
    var hs := Hints(cs);
    var j :| 0 <= j < |cs| && cs[j].Hint().lower == len;
    assert hs[j].lower == len;
    assert forall i | 0 <= i < |hs| :: len <= hs[i].lower;
    var m := MinRemaining(cs);
    var k :| 0 <= k < |cs| && cs[k].Remaining() == m;
    assert len <= m by {
      assert len <= cs[k].Hint().lower;
      assert cs[k].Exact();
    }
    assert m <= len by {
      assert cs[j].Exact();
      assert m <= cs[j].Remaining();
    }
  }

  /** A step over components that keep the exact-size promise and all have an element keeps
      the promise, and leaves the shortest component one element shorter. */
  lemma TrustedStep<T>(cs: seq<Cursor<T>>)
    requires |cs| > 0 && MinRemaining(cs) > 0
    requires AllExact(cs)
    ensures forall i | 0 <= i < |cs| :: cs[i].rest != []
    ensures FirstExhausted(cs) == |cs| && Step(cs).0 == Some(Heads(cs))
    ensures |Step(cs).1| == |cs| && MinRemaining(Step(cs).1) == MinRemaining(cs) - 1
    ensures AllExact(Step(cs).1)
  {
    StepYields(cs);
    forall i | 0 <= i < |cs| ensures cs[i].rest != [] {
      assert MinRemaining(cs) <= cs[i].Remaining();
    }
    var cs' := Step(cs).1;
    forall i | 0 <= i < |cs| ensures cs'[i].Exact() {
      assert cs'[i] == cs[i].Pull().1;
      PullPreservesExact(cs[i]);
    }
  }

  /** The per-component pulls of `ZipTrusted::next`, left to right. The exact-size promise
      is what makes the source assume that no pull finds its component exhausted; here that
      is the precondition, and the `None` arm is proved unreachable instead of assumed so. */
  method PullEachTrusted<T>(cs: seq<Cursor<T>>) returns (out: seq<T>, cs': seq<Cursor<T>>)
    requires forall i | 0 <= i < |cs| :: cs[i].rest != []
    ensures out == Heads(cs)
    ensures cs' == Advanced(cs, |cs|)
  {
    cs' := cs;
    out := [];
    var i := 0;
    while i < |cs'|
      invariant 0 <= i <= |cs'| == |cs|
      invariant cs' == Advanced(cs, i)
      invariant |out| == i && forall j | 0 <= j < i :: out[j] == cs[j].rest[0]
    {
      var (e, c) := cs'[i].Pull();
      cs' := cs'[i := c];
      match e {
      case None =>
        assert false;
        return;
      case Some(x) =>
        out := out + [x];
      }
      i := i + 1;
    }
  }

  class ZipTrusted<T> {
    var length: nat
    var comps: seq<Cursor<T>>

    /** Every component keeps the exact-size promise, and the cached `length` is the number
        of elements the shortest component has left. */
    ghost predicate Valid()
      reads this
    {
      |comps| > 0 && AllExact(comps) && length == MinRemaining(comps)
    }

    /** `ZipTrusted::new`: takes the components, then caches their combined length. */
    constructor (t: seq<Cursor<T>>)
      requires |t| > 0 && AllExact(t)
      ensures Valid() && comps == t
      ensures IsMinLower(length, Hints(t))
    {
      length := 0;
      comps := t;
      new;
      SetLength();
    }

    /** `SetLength::set_length`: caches the least of the components' lower bounds; each
        component's hint is checked to be exact on the way (the source's `debug_assert!`). */
    method SetLength()
      requires |comps| > 0 && AllExact(comps)
      modifies this`length
      ensures Valid()
      ensures IsMinLower(length, Hints(comps))
    {
      // The source starts from `usize::MAX`; the first component's bound replaces it at once.
      var len := comps[0].Hint().lower;
      var i := 0;
      while i < |comps|
        invariant 0 <= i <= |comps|
        invariant forall j | 0 <= j < i :: len <= comps[j].Hint().lower
        invariant exists j | 0 <= j < |comps| :: comps[j].Hint().lower == len
      {
        var h := comps[i].Hint();
        len := Min(len, h.lower);
        assert Some(h.lower) == h.upper;
        i := i + 1;
      }
      length := len;
      ExactMinLower(comps, len);
    }

    /** `ZipTrusted::next`. With `length == 0` it yields `None` and touches no component.
        Otherwise it pulls once from every component, none of which can be exhausted, yields
        their tuple and counts one tuple off. The result is always the one the general `Zip`
        yields from the same components. */
    method Next() returns (r: Option<seq<T>>)
      requires Valid()
      modifies this
      ensures Valid()
      ensures r == Step(old(comps)).0
      ensures old(length) == 0 ==> r == None && comps == old(comps) && length == 0
      ensures old(length) > 0 ==> comps == Step(old(comps)).1 && length == old(length) - 1
    {
      if length == 0 {
        StepEnds(comps);
        return None;
      }
      ghost var cs := comps;
      forall j | 0 <= j < |cs| ensures cs[j].rest != [] {
        assert MinRemaining(cs) <= cs[j].Remaining();
      }
      var out, ts := PullEachTrusted(comps);
      comps := ts;
      TrustedStep(cs);
      length := length - 1;
      r := Some(out);
    }

    /** `ZipTrusted::size_hint`: exact, equal to the number of tuples still to come, and
        equal to the hint the general `Zip` computes from the same components. */
    function SizeHint(): (h: SizeHint)
      reads this
      requires Valid()
      ensures h == SizeHints.SizeHint(MinRemaining(comps), Some(MinRemaining(comps)))
      ensures h == ZipHint(Hints(comps))
    {
      ExactZipHint(comps);
      SizeHints.SizeHint(length, Some(length))
    }
  }

  /** A caller's `for` loop over a `ZipTrusted`: calls `next` until it yields `None`. It
      yields exactly the tuples the general `Zip` would, `length` of them, and ends with the
      cached length at zero and the hint `(0, Some(0))`. */
  method DrainTrusted<T>(z: ZipTrusted<T>) returns (out: seq<seq<T>>)
    requires z.Valid()
    modifies z
    ensures z.Valid()
    ensures out == Collect(old(z.comps))
    ensures |out| == old(z.length)
    ensures z.length == 0 && z.SizeHint() == SizeHints.SizeHint(0, Some(0))
  {
    ghost var cs0 := z.comps;
    CollectLength(cs0);
    out := [];
    while true
      invariant z.Valid()
      invariant out + Collect(z.comps) == Collect(cs0)
      decreases z.length
    {
      ghost var before := z.comps;
      var t := z.Next();
      ghost var after := z.comps;
      CollectStep(before);
      if t.None? {
        assert out + [] == Collect(cs0);
        return;
      }
      assert after == Step(before).1;
      assert Collect(before) == [t.value] + Collect(after);
      assert (out + [t.value]) + Collect(after) == out + Collect(before);
      out := out + [t.value];
    }
  }
}
