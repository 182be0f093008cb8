/** The documentation examples of both combinators: the range `0..100`, a three-element
    array of zeros and the array `[69, 107, 101]`, zipped in lockstep. All three components
    report exact sizes. The range's end is a parameter here (100 in the examples); any end
    of at least 3 gives the same result. */
module DocExamples {
  import opened Wrappers
  import opened SizeHints
  import opened Cursors
  import opened Zips
  import opened TrustedZips

  function DocComponents(end: nat): seq<Cursor<int>>
  {
    [Cursor(seq(end, i => i), 0, Some(0)), Cursor([0, 0, 0], 0, Some(0)), Cursor([69, 107, 101], 0, Some(0))]
  }

  /** The arrays are the shortest components: three elements each. */
  lemma DocMinRemaining(end: nat)
    requires end >= 3
    ensures MinRemaining(DocComponents(end)) == 3
  {
    var cs := DocComponents(end);
    assert cs[1..][1..] == [cs[2]];
    assert MinRemaining(cs[1..][1..]) == 3;
    assert MinRemaining(cs[1..]) == 3;
  }

  /** `Zip::new((0..100, xs.iter_mut(), ys.iter()))` yields the three tuples `(i, x, y)` for
      `i` in `0..3`, then stops: the range is cut short by the arrays. */
  lemma ZipDocExample(end: nat)
    requires end >= 3
    ensures Collect(DocComponents(end)) == [[0, 0, 69], [1, 0, 107], [2, 0, 101]]
  {
    var cs := DocComponents(end);
    DocMinRemaining(end);
    CollectZips(cs);
    var out := Collect(cs);
    assert out[0] == [0, 0, 69] by {
      assert out[0] == Column(cs, 0);
    }
    assert out[1] == [1, 0, 107] by {
      assert out[1] == Column(cs, 1);
    }
    assert out[2] == [2, 0, 101] by {
      assert out[2] == Column(cs, 2);
    }
  }

  /** The same example through `ZipTrusted`: the cached length starts at 3, three tuples come
      out, and the hint ends at `(0, Some(0))`. */
  method ZipTrustedDocExample(end: nat) returns (out: seq<seq<int>>, first: SizeHint, last: SizeHint)
    requires end >= 3
    ensures out == [[0, 0, 69], [1, 0, 107], [2, 0, 101]]
    ensures first == SizeHint(3, Some(3)) && last == SizeHint(0, Some(0))
  {
    var cs := DocComponents(end);
    assert cs[0].Exact() && cs[1].Exact() && cs[2].Exact();
    var z := new ZipTrusted(cs);
    DocMinRemaining(end);
    first := z.SizeHint();
    out := DrainTrusted(z);
    last := z.SizeHint();
    ZipDocExample(end);
  }
}
