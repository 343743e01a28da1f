/**
 The line chart's segments (`segments` in charts.tsx): the runs of measured points between the gaps.
 */
module ChartSegments {
  import opened Prelude

  /** A measured value at its index; the code never looks at the value. */
  datatype Point<V> = Point(i: nat, v: V)

  /** Every measured point, in index order. */
  function Measured<V>(values: seq<Option<V>>): seq<Point<V>> {
    if values == [] then []
    else
      var n := |values| - 1;
      Measured(values[..n]) + (if values[n].Some? then [Point(n, values[n].value)] else [])
  }

  function Flatten<V>(runs: seq<seq<Point<V>>>): seq<Point<V>> {
    if runs == [] then [] else Flatten(runs[..|runs| - 1]) + runs[|runs| - 1]
  }

  ghost predicate Consecutive<V>(run: seq<Point<V>>) {
    forall k | 0 <= k < |run| - 1 :: run[k + 1].i == run[k].i + 1
  }

  /** The last index of a run. */
  ghost function End<V>(run: seq<Point<V>>): int {
    if run == [] then -1 else run[|run| - 1].i
  }

  /** Non-empty stretches of consecutive indices, with at least one missing index between neighbours. */
  ghost predicate GoodRuns<V>(runs: seq<seq<Point<V>>>) {
    (forall r | 0 <= r < |runs| :: runs[r] != [] && Consecutive(runs[r]))
    && (forall r | 0 <= r < |runs| - 1 :: runs[r + 1][0].i > End(runs[r]) + 1)
  }

  /** The runs cut exactly these points. */
  ghost predicate IsSegmentation<V>(points: seq<Point<V>>, runs: seq<seq<Point<V>>>) {
    Flatten(runs) == points && GoodRuns(runs)
  }

  lemma GoodSnoc<V>(runs: seq<seq<Point<V>>>, run: seq<Point<V>>)
    requires GoodRuns(runs) && run != [] && Consecutive(run)
    requires runs != [] ==> run[0].i > End(runs[|runs| - 1]) + 1
    ensures GoodRuns(runs + [run])
  {
    var all: seq<seq<Point<V>>> := runs + [run];
    forall r | 0 <= r < |all| - 1
      ensures all[r + 1][0].i > End(all[r]) + 1
    {
      if r + 1 < |runs| {
        assert runs[r + 1][0].i > End(runs[r]) + 1;
      }
    }
  }

  lemma FlattenSnoc<V>(runs: seq<seq<Point<V>>>, run: seq<Point<V>>)
    ensures Flatten(runs + [run]) == Flatten(runs) + run
  {
    assert (runs + [run])[..|runs|] == runs;
  }

  /** The points are exactly the measured values at their indices, by increasing index. */
  lemma {:induction false} MeasuredExactly<V(!new)>(values: seq<Option<V>>)
    ensures forall p :: p in Measured(values) <==> p.i < |values| && values[p.i] == Some(p.v)
    ensures forall j, k | 0 <= j < k < |Measured(values)| :: Measured(values)[j].i < Measured(values)[k].i
  {
    if values != [] {
      MeasuredExactly(values[..|values| - 1]);
      assert forall p | p in Measured(values[..|values| - 1]) :: p.i < |values| - 1;
    }
  }

  /** Half-way: the finished runs and the one being gathered hold the points before index `i`. */
  ghost predicate Gathering<V>(points: seq<Point<V>>, i: nat, out: seq<seq<Point<V>>>, run: seq<Point<V>>) {
    Flatten(out) + run == points && GoodRuns(out) && Consecutive(run)
    && (run != [] ==> End(run) == i - 1)
    && (run != [] && out != [] ==> run[0].i > End(out[|out| - 1]) + 1)
    && (run == [] && out != [] ==> End(out[|out| - 1]) + 1 < i)
  }

  lemma CloseRun<V>(points: seq<Point<V>>, i: nat, out: seq<seq<Point<V>>>, run: seq<Point<V>>)
    requires Gathering(points, i, out, run) && run != []
    ensures Gathering(points, i + 1, out + [run], [])
  {
    GoodSnoc(out, run);
    FlattenSnoc(out, run);
  }

  lemma ExtendRun<V>(points: seq<Point<V>>, i: nat, out: seq<seq<Point<V>>>, run: seq<Point<V>>, v: V)
    requires Gathering(points, i, out, run)
    ensures Gathering(points + [Point(i, v)], i + 1, out, run + [Point(i, v)])
  {
    assert Flatten(out) + (run + [Point(i, v)]) == Flatten(out) + run + [Point(i, v)];
  }

  lemma SkipGap<V>(points: seq<Point<V>>, i: nat, out: seq<seq<Point<V>>>)
    requires Gathering(points, i, out, [])
    ensures Gathering(points, i + 1, out, [])
  {
  }

  /** The finished runs and the one being gathered after the loop has seen these values. */
  function Gather<V>(values: seq<Option<V>>): (seq<seq<Point<V>>>, seq<Point<V>>) {
    if values == [] then ([], [])
    else
      var n := |values| - 1;
      var (out, run) := Gather(values[..n]);
      if values[n].Some? then (out, run + [Point(n, values[n].value)])
      else if run != [] then (out + [run], [])
      else (out, run)
  }

  lemma {:induction false} GatherGathers<V>(values: seq<Option<V>>)
    ensures Gathering(Measured(values), |values|, Gather(values).0, Gather(values).1)
  {
    if values != [] {
      var n := |values| - 1;
      var (out, run) := Gather(values[..n]);
      GatherGathers(values[..n]);
      if values[n].Some? {
        ExtendRun(Measured(values[..n]), n, out, run, values[n].value);
      } else if run != [] {
        CloseRun(Measured(values[..n]), n, out, run);
      } else {
        SkipGap(Measured(values[..n]), n, out);
      }
    }
  }

  lemma GatheredIsSegmentation<V>(values: seq<Option<V>>)
    ensures var (out, run) := Gather(values);
            IsSegmentation(Measured(values), if run != [] then out + [run] else out)
  {
    var (out, run) := Gather(values);
    GatherGathers(values);
    if run != [] {
      CloseRun(Measured(values), |values|, out, run);
      assert Flatten(out + [run]) + [] == Flatten(out + [run]);
    } else {
      assert Flatten(out) + [] == Flatten(out);
    }
  }

  method Segments<V>(values: seq<Option<V>>) returns (out: seq<seq<Point<V>>>)
    ensures IsSegmentation(Measured(values), out)
  {
    out := [];
    var run: seq<Point<V>> := [];
    for i := 0 to |values|
      invariant (out, run) == Gather(values[..i])
    {
      assert values[..i + 1][..i] == values[..i];
      var v := values[i];
      if v.None? {
        if run != [] {
          out := out + [run];
          run := [];
        }
      } else {
        run := run + [Point(i, v.value)];
      }
    }
    assert values[..|values|] == values;
    if run != [] {
      out := out + [run];
    }
    GatheredIsSegmentation(values);
  }

  // ---------- There is one segmentation ----------

  lemma {:induction false} LastOfFlatten<V>(runs: seq<seq<Point<V>>>)
    requires runs != [] && runs[|runs| - 1] != []
    ensures Flatten(runs) != [] && End(Flatten(runs)) == End(runs[|runs| - 1])
  {
  }

  lemma SuffixOfFlatten<V>(runs: seq<seq<Point<V>>>)
    requires runs != []
    ensures var last, all := runs[|runs| - 1], Flatten(runs);
            |all| >= |last| && all[|all| - |last|..] == last && all[..|all| - |last|] == Flatten(runs[..|runs| - 1])
  {
  }

  /** In a segmentation a point directly before the last run is not its neighbour. */
  lemma GapBeforeLast<V>(points: seq<Point<V>>, runs: seq<seq<Point<V>>>)
    requires IsSegmentation(points, runs) && runs != []
    ensures var k := |points| - |runs[|runs| - 1]|; 0 <= k < |points| && (k > 0 ==> points[k].i > points[k - 1].i + 1)
    ensures forall m | |points| - |runs[|runs| - 1]| < m < |points| :: points[m].i == points[m - 1].i + 1
  {
    var n := |runs| - 1;
    var last := runs[n];
    SuffixOfFlatten(runs);
    var k := |points| - |last|;
    assert points[k..] == last;
    forall m | k < m < |points|
      ensures points[m].i == points[m - 1].i + 1
    {
      assert points[m] == last[m - k] && points[m - 1] == last[m - k - 1];
    }
    if n > 0 {
      LastOfFlatten(runs[..n]);
      assert points[k - 1] == points[..k][k - 1];
      assert runs[n - 1 + 1][0].i > End(runs[n - 1]) + 1;
    }
  }

  lemma FrontIsSegmentation<V>(points: seq<Point<V>>, runs: seq<seq<Point<V>>>)
    requires IsSegmentation(points, runs) && runs != []
    ensures |runs[|runs| - 1]| <= |points|
    ensures IsSegmentation(points[..|points| - |runs[|runs| - 1]|], runs[..|runs| - 1])
  {
    SuffixOfFlatten(runs);
  }

  /** Whatever satisfies the description is the segmentation: the description leaves nothing open. */
  lemma {:induction false} SegmentationIsUnique<V>(points: seq<Point<V>>, a: seq<seq<Point<V>>>, b: seq<seq<Point<V>>>)
    requires IsSegmentation(points, a) && IsSegmentation(points, b)
    ensures a == b
    decreases |a|
  {
    if a == [] || b == [] {
      if a != [] {
        GapBeforeLast(points, a);
      }
      if b != [] {
        GapBeforeLast(points, b);
      }
    } else {
      var la, lb := a[|a| - 1], b[|b| - 1];
      GapBeforeLast(points, a);
      GapBeforeLast(points, b);
      assert |la| == |lb|;
      SuffixOfFlatten(a);
      SuffixOfFlatten(b);
      FrontIsSegmentation(points, a);
      FrontIsSegmentation(points, b);
      SegmentationIsUnique(points[..|points| - |la|], a[..|a| - 1], b[..|b| - 1]);
      SameEnds(a, b);
    }
  }

  lemma SameEnds<T>(a: seq<T>, b: seq<T>)
    requires a != [] && b != [] && a[..|a| - 1] == b[..|b| - 1] && a[|a| - 1] == b[|b| - 1]
    ensures a == b
  {
    assert a == a[..|a| - 1] + [a[|a| - 1]];
    assert b == b[..|b| - 1] + [b[|b| - 1]];
  }
}
