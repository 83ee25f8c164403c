/** Whole runs of inserts and merges: the order does not matter, and only the contributions do. */
module Histories {
  import opened Aggregators
  import opened Registers
  import opened Sequences

  // The order of insertion.

  lemma MoveToEnd(types: seq<AggregatorType>, history: seq<Contribution>, i: nat)
    requires ShapedHistory(types, history) && i < |history|
    ensures ShapedHistory(types, RemoveAt(history, i) + [history[i]])
    ensures SketchOf(types, history) == SketchOf(types, RemoveAt(history, i) + [history[i]])
  {
    hide SketchOf, Combine;
    var a, x, b := history[..i], [history[i]], history[i + 1..];
    assert history == a + (x + b) && RemoveAt(history, i) + x == a + (b + x);
    MergeIsConcatenation(types, x, b);
    MergeIsConcatenation(types, b, x);
    MergeIsConcatenation(types, a, x + b);
    MergeIsConcatenation(types, a, b + x);
    CombineCommutes(types, SketchOf(types, x), SketchOf(types, b));
  }

  /** The same contributions in any order give the same sketch. */
  lemma {:induction false} InsertionOrderIrrelevant(
      types: seq<AggregatorType>, h: seq<Contribution>, h': seq<Contribution>)
    requires ShapedHistory(types, h) && ShapedHistory(types, h') && multiset(h) == multiset(h')
    ensures SketchOf(types, h) == SketchOf(types, h')
    decreases |h|
  {
    hide *;
    assert |h| == |multiset(h)| == |multiset(h')| == |h'|;
    if |h| == 0 {
      assert h == h';
    } else {
      var last := |h| - 1;
      var i := FindIn(h, h', h[last]);
      MultisetRemoveAt(h, last);
      MultisetRemoveAt(h', i);
      RemoveLast(h);
      MoveToEnd(types, h', i);
      SketchOfLonger(types, RemoveAt(h', i), h'[i]);
      assert h == RemoveAt(h, last) + [h[last]];
      SketchOfLonger(types, RemoveAt(h, last), h[last]);
      InsertionOrderIrrelevant(types, RemoveAt(h, last), RemoveAt(h', i));
    }
  }

  // Runs.

  datatype Run =
    | Empty
    | Insert(prior: Run, contribution: Contribution)
    | Merge(into: Run, other: Run)

  function Contributions(run: Run): seq<Contribution> {
    match run
    case Empty => []
    case Insert(prior, c) => Contributions(prior) + [c]
    case Merge(into, other) => Contributions(into) + Contributions(other)
  }

  predicate ShapedRun(types: seq<AggregatorType>, run: Run) {
    match run
    case Empty => true
    case Insert(prior, c) => ShapedRun(types, prior) && |c.values| == |types|
    case Merge(into, other) => ShapedRun(types, into) && ShapedRun(types, other)
  }

  /** The registers after a run, operation by operation; merging a sketch into itself repeats its run. */
  function State(types: seq<AggregatorType>, run: Run): (m: RegisterMap)
    requires ShapedRun(types, run)
    ensures Shaped(types, m)
  {
    match run
    case Empty => map[]
    case Insert(prior, c) => Absorb(types, State(types, prior), c.index, c.values)
    case Merge(into, other) => Combine(types, State(types, into), State(types, other))
  }

  /** A run leaves the sketch of all the contributions that went into it. */
  lemma {:induction false} StateIsSketch(types: seq<AggregatorType>, run: Run)
    requires ShapedRun(types, run)
    ensures ShapedHistory(types, Contributions(run))
    ensures State(types, run) == SketchOf(types, Contributions(run))
  {
    hide Combine, Absorb;
    match run
    case Empty =>
    case Insert(prior, c) =>
      StateIsSketch(types, prior);
      SketchOfLonger(types, Contributions(prior), c);
    case Merge(into, other) =>
      StateIsSketch(types, into);
      StateIsSketch(types, other);
      MergeIsConcatenation(types, Contributions(into), Contributions(other));
  }
}
