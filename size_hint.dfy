/** The size-estimate protocol every iterator exposes (`Iterator::size_hint`), and the fold
    with which the general zip combines the estimates of its components. */
module SizeHints {
  import opened Wrappers

  /** A `(lower, Option<upper>)` estimate of the number of elements still to come;
      `upper == None` means that no upper bound is reported. `usize` is modelled as `nat`. */
  datatype SizeHint = SizeHint(lower: nat, upper: Option<nat>) {

    /** The estimate is truthful for an iterator that has exactly `n` elements left. */
    predicate Bounds(n: nat)
    {
      lower <= n && (upper.Some? ==> n <= upper.value)
    }
  }

  function Min(a: nat, b: nat): nat
  {
    if a <= b then a else b
  }

  /** One shadowing `let` step of `Zip::size_hint`: the running lower bound takes the
      minimum, and the running upper bound takes the minimum when both sides report one and
      otherwise whichever side reports one (`high.or(h)`). */
  function Combine(acc: SizeHint, h: SizeHint): SizeHint
  {
    var upper := match (acc.upper, h.upper)
      case (Some(u1), Some(u2)) => Some(Min(u1, u2))
      case _ => acc.upper.Or(h.upper);
    SizeHint(Min(acc.lower, h.lower), upper)
  }

  /** The steps of `Zip::size_hint`, component by component, left to right. */
  function FoldHints(acc: SizeHint, hs: seq<SizeHint>): SizeHint
    decreases |hs|
  {
    if hs == [] then acc else FoldHints(Combine(acc, hs[0]), hs[1..])
  }

  /** `Zip::size_hint` over the hints of its components. The source starts the lower bound
      at `usize::MAX`, which the first component's bound always replaces; here it starts at
      that first bound, and the upper bound starts, as in the source, at `None`. */
  function ZipHint(hs: seq<SizeHint>): SizeHint
    requires |hs| > 0
  {
    FoldHints(SizeHint(hs[0].lower, None), hs)
  }

  /** `m` is the least of the lower bounds in `hs`. */
  ghost predicate IsMinLower(m: nat, hs: seq<SizeHint>)
  {
    (forall i | 0 <= i < |hs| :: m <= hs[i].lower) &&
    (exists i | 0 <= i < |hs| :: hs[i].lower == m)
  }

  /** `u` is the least of the upper bounds that the hints in `hs` do report, and it is
      `None` exactly when none of them reports one. */
  ghost predicate IsMinReportedUpper(u: Option<nat>, hs: seq<SizeHint>)
  {
    (u.None? <==> forall i | 0 <= i < |hs| :: hs[i].upper.None?) &&
    (u.Some? ==>
      (forall i | 0 <= i < |hs| && hs[i].upper.Some? :: u.value <= hs[i].upper.value) &&
      (exists i | 0 <= i < |hs| :: hs[i].upper == u))
  }

  /** Folding from `acc` yields the minimum over `acc` and every hint in `hs`. */
  lemma {:induction false} FoldHintsIsMin(acc: SizeHint, hs: seq<SizeHint>)
    ensures IsMinLower(FoldHints(acc, hs).lower, [acc] + hs)
    ensures IsMinReportedUpper(FoldHints(acc, hs).upper, [acc] + hs)
    decreases |hs|
  {
    var s := [acc] + hs;
    var r := FoldHints(acc, hs);
    if hs == [] {
      assert s[0] == acc;
    } else {
      var c := Combine(acc, hs[0]);
      var s' := [c] + hs[1..];
      FoldHintsIsMin(c, hs[1..]);
      assert r == FoldHints(c, hs[1..]);
      assert s[0] == acc && s[1] == hs[0];
      assert forall i | 1 <= i < |s'| :: s'[i] == s[i + 1];
      // lower bound
      forall i | 0 <= i < |s| ensures r.lower <= s[i].lower {
        if i >= 2 { assert s[i] == s'[i - 1]; } else { assert r.lower <= s'[0].lower; }
      }
      var j :| 0 <= j < |s'| && s'[j].lower == r.lower;
      if j == 0 {
        if acc.lower <= hs[0].lower { assert s[0].lower == r.lower; } else { assert s[1].lower == r.lower; }
      } else {
        assert s[j + 1].lower == r.lower;
      }
      // upper bound
      if r.upper.None? {
        forall i | 0 <= i < |s| ensures s[i].upper.None? {
          if i >= 2 { assert s[i] == s'[i - 1]; } else { assert s'[0].upper.None?; }
        }
      } else {
        forall i | 0 <= i < |s| && s[i].upper.Some? ensures r.upper.value <= s[i].upper.value {
          if i >= 2 { assert s[i] == s'[i - 1]; } else { assert s'[0].upper.Some?; }
        }
        var k :| 0 <= k < |s'| && s'[k].upper == r.upper;
        if k == 0 {
          if acc.upper.Some? && (hs[0].upper.None? || acc.upper.value <= hs[0].upper.value) {
            assert s[0].upper == r.upper;
          } else {
            assert s[1].upper == r.upper;
          }
        } else {
          assert s[k + 1].upper == r.upper;
        }
      }
    }
  }

  /** `Zip::size_hint`: the lower bound is the least of the components' lower bounds; the
      upper bound is the least of the upper bounds that components report, and is absent
      only when no component reports one. */
  lemma ZipHintIsMin(hs: seq<SizeHint>)
    requires |hs| > 0
    ensures IsMinLower(ZipHint(hs).lower, hs)
    ensures IsMinReportedUpper(ZipHint(hs).upper, hs)
  {
    var acc := SizeHint(hs[0].lower, None);
    var s := [acc] + hs;
    var r := ZipHint(hs);
    FoldHintsIsMin(acc, hs);
    assert forall i | 0 <= i < |hs| :: s[i + 1] == hs[i];
    var j :| 0 <= j < |s| && s[j].lower == r.lower;
    if j == 0 { assert hs[0].lower == r.lower; } else { assert hs[j - 1].lower == r.lower; }
    if r.upper.Some? {
      var k :| 0 <= k < |s| && s[k].upper == r.upper;
      assert k != 0;
      assert hs[k - 1].upper == r.upper;
    }
  }

  /** Components whose hints are truthful for their remaining counts `ns` give a combined
      hint that is truthful for the least of those counts: an absent upper bound stands for
      "unbounded", so the minimum over the reported ones remains a valid bound. */
  lemma ZipHintBounds(hs: seq<SizeHint>, ns: seq<nat>, m: nat)
    requires |hs| == |ns| > 0
    requires forall i | 0 <= i < |hs| :: hs[i].Bounds(ns[i])
    requires (forall i | 0 <= i < |ns| :: m <= ns[i]) && (exists i | 0 <= i < |ns| :: ns[i] == m)
    ensures ZipHint(hs).Bounds(m)
  {
    ZipHintIsMin(hs);
    var r := ZipHint(hs);
    var j :| 0 <= j < |ns| && ns[j] == m;
    assert r.lower <= hs[j].lower <= m;
    if r.upper.Some? {
      var k :| 0 <= k < |hs| && hs[k].upper == r.upper;
      assert m <= ns[k] <= r.upper.value;
    }
  }
}
