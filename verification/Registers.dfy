/** The register map of a sketch as a value: absorbing tuples, combining maps, and histories. */
module Registers {
  import opened Aggregators
  import opened Sequences
  import opened Words

  type Tuple = seq<int>
  type RegisterMap = map<Key, Tuple>

  datatype Contribution = Contribution(index: Key, values: Tuple)

  predicate Shaped(types: seq<AggregatorType>, m: RegisterMap) {
    forall k :: k in m ==> |m[k]| == |types|
  }

  predicate ShapedHistory(types: seq<AggregatorType>, history: seq<Contribution>) {
    forall i :: 0 <= i < |history| ==> |history[i].values| == |types|
  }

  function Absorb(types: seq<AggregatorType>, m: RegisterMap, k: Key, values: Tuple): (r: RegisterMap)
    requires Shaped(types, m) && |values| == |types|
    ensures Shaped(types, r)
  {
    m[k := if k in m then AggregateTuple(types, m[k], values) else values]
  }

  /** Register-wise combination; no order of the keys is involved. */
  function Combine(types: seq<AggregatorType>, m: RegisterMap, n: RegisterMap): (r: RegisterMap)
    requires Shaped(types, m) && Shaped(types, n)
    ensures Shaped(types, r)
    ensures r.Keys == m.Keys + n.Keys
  {
    map k | k in m.Keys + n.Keys ::
      if k !in n then m[k] else if k !in m then n[k] else AggregateTuple(types, m[k], n[k])
  }

  lemma CombineCommutes(types: seq<AggregatorType>, a: RegisterMap, b: RegisterMap)
    requires Shaped(types, a) && Shaped(types, b)
    ensures Combine(types, a, b) == Combine(types, b, a)
  {
    forall k | k in a && k in b
      ensures AggregateTuple(types, a[k], b[k]) == AggregateTuple(types, b[k], a[k])
    {
      TupleAssociates(types, a[k], b[k], b[k]);
    }
  }

  lemma CombineAt(types: seq<AggregatorType>, a: RegisterMap, b: RegisterMap, k: Key)
    requires Shaped(types, a) && Shaped(types, b)
    ensures k in Combine(types, a, b) <==> k in a || k in b
    ensures k in a && k !in b ==> Combine(types, a, b)[k] == a[k]
    ensures k !in a && k in b ==> Combine(types, a, b)[k] == b[k]
    ensures k in a && k in b ==>
              |a[k]| == |b[k]| == |types| && Combine(types, a, b)[k] == AggregateTuple(types, a[k], b[k])
  {
  }

  lemma CombineAssociates(types: seq<AggregatorType>, a: RegisterMap, b: RegisterMap, c: RegisterMap)
    requires Shaped(types, a) && Shaped(types, b) && Shaped(types, c)
    ensures Combine(types, Combine(types, a, b), c) == Combine(types, a, Combine(types, b, c))
  {
    hide Combine, AggregateTuple, Shaped;
    var l, r := Combine(types, Combine(types, a, b), c), Combine(types, a, Combine(types, b, c));
    forall k
      ensures k in l <==> k in r
      ensures k in l ==> l[k] == r[k]
    {
      CombineAt(types, a, b, k);
      CombineAt(types, b, c, k);
      CombineAt(types, Combine(types, a, b), c, k);
      CombineAt(types, a, Combine(types, b, c), k);
      if k in a && k in b && k in c {
        TupleAssociates(types, a[k], b[k], c[k]);
      }
    }
  }

  lemma AbsorbIsCombine(types: seq<AggregatorType>, m: RegisterMap, k: Key, values: Tuple)
    requires Shaped(types, m) && |values| == |types|
    ensures Shaped(types, map[k := values])
    ensures Absorb(types, m, k, values) == Combine(types, m, map[k := values])
  {
  }

  /** The registers of a sketch that received these contributions in this order. */
  function SketchOf(types: seq<AggregatorType>, history: seq<Contribution>): (r: RegisterMap)
    requires ShapedHistory(types, history)
    ensures Shaped(types, r)
  {
    if |history| == 0 then map[]
    else
      var last := history[|history| - 1];
      Absorb(types, SketchOf(types, history[..|history| - 1]), last.index, last.values)
  }

  lemma SketchOfLonger(types: seq<AggregatorType>, front: seq<Contribution>, c: Contribution)
    requires ShapedHistory(types, front + [c])
    ensures ShapedHistory(types, front) && |c.values| == |types|
    ensures SketchOf(types, front + [c]) == Absorb(types, SketchOf(types, front), c.index, c.values)
  {
    assert (front + [c])[|front|] == c && (front + [c])[..|front|] == front;
    assert forall i :: 0 <= i < |front| ==> front[i] == (front + [c])[i];
  }

  /** Merging the sketches of two histories is sketching the one after the other. */
  lemma {:induction false} MergeIsConcatenation(types: seq<AggregatorType>, a: seq<Contribution>, b: seq<Contribution>)
    requires ShapedHistory(types, a) && ShapedHistory(types, b)
    ensures ShapedHistory(types, a + b)
    ensures Combine(types, SketchOf(types, a), SketchOf(types, b)) == SketchOf(types, a + b)
    decreases |b|
  {
    if |b| == 0 {
      assert a + b == a;
      assert Combine(types, SketchOf(types, a), map[]) == SketchOf(types, a);
    } else {
      var front, last := b[..|b| - 1], b[|b| - 1];
      assert (a + b)[..|a + b| - 1] == a + front;
      MergeIsConcatenation(types, a, front);
      AbsorbIsCombine(types, SketchOf(types, front), last.index, last.values);
      AbsorbIsCombine(types, SketchOf(types, a + front), last.index, last.values);
      CombineAssociates(types, SketchOf(types, a), SketchOf(types, front), map[last.index := last.values]);
    }
  }

  /** Contributions that would leave just these registers: one for each. */
  ghost function Listing(m: RegisterMap): seq<Contribution>
    decreases m.Keys
  {
    if m.Keys == {} then []
    else
      var k := Some(m.Keys);
      Listing(m - {k}) + [Contribution(k, m[k])]
  }

  lemma ListingStep(m: RegisterMap) returns (k: Key)
    requires m.Keys != {}
    ensures k in m && Listing(m) == Listing(m - {k}) + [Contribution(k, m[k])]
    ensures (m - {k})[k := m[k]] == m && (m - {k}).Keys < m.Keys && k !in m - {k}
  {
    k := Some(m.Keys);
  }

  lemma AbsorbNew(types: seq<AggregatorType>, m: RegisterMap, k: Key, values: Tuple)
    requires Shaped(types, m) && |values| == |types| && k !in m
    ensures Absorb(types, m, k, values) == m[k := values]
  {
  }

  lemma ListingOfNone(types: seq<AggregatorType>, m: RegisterMap)
    requires m.Keys == {}
    ensures Listing(m) == [] && m == map[] && ShapedHistory(types, []) && SketchOf(types, []) == map[]
  {
  }

  lemma {:induction false} SketchOfListing(types: seq<AggregatorType>, m: RegisterMap)
    requires Shaped(types, m)
    ensures ShapedHistory(types, Listing(m))
    ensures SketchOf(types, Listing(m)) == m
    decreases m.Keys
  {
    hide Listing, SketchOf, Absorb;
    if m.Keys == {} {
      ListingOfNone(types, m);
    } else {
      var k := ListingStep(m);
      SketchOfListing(types, m - {k});
      SketchOfLonger(types, Listing(m - {k}), Contribution(k, m[k]));
      AbsorbNew(types, m - {k}, k, m[k]);
    }
  }

  /** The values that the history sent to column i of register k, in order. */
  ghost function Column(history: seq<Contribution>, k: Key, i: nat): seq<int> {
    if |history| == 0 then []
    else
      var last := history[|history| - 1];
      Column(history[..|history| - 1], k, i)
      + if last.index == k && i < |last.values| then [last.values[i]] else []
  }

  lemma {:induction false} ColumnElements(types: seq<AggregatorType>, history: seq<Contribution>, k: Key, i: nat)
    requires ShapedHistory(types, history) && i < |types|
    ensures forall v :: v in Column(history, k, i) <==>
              exists h :: 0 <= h < |history| && history[h].index == k && history[h].values[i] == v
    decreases |history|
  {
    if |history| > 0 {
      var front, last := history[..|history| - 1], history[|history| - 1];
      ColumnElements(types, front, k, i);
      forall v
        ensures v in Column(history, k, i) <==>
                  exists h :: 0 <= h < |history| && history[h].index == k && history[h].values[i] == v
      {
        if v in Column(front, k, i) {
          var h :| 0 <= h < |front| && front[h].index == k && front[h].values[i] == v;
          assert history[h] == front[h];
        }
        if h :| 0 <= h < |history| && history[h].index == k && history[h].values[i] == v {
          if h < |front| {
            assert front[h] == history[h];
          }
        }
      }
    }
  }

  lemma {:induction false} SketchKeys(types: seq<AggregatorType>, history: seq<Contribution>, k: Key)
    requires ShapedHistory(types, history)
    ensures k in SketchOf(types, history) <==> exists h :: 0 <= h < |history| && history[h].index == k
    decreases |history|
  {
    if |history| > 0 {
      var front, last := history[..|history| - 1], history[|history| - 1];
      SketchKeys(types, front, k);
      assert forall h :: 0 <= h < |front| ==> front[h] == history[h];
    }
  }

  lemma {:induction false} ColumnOfAbsent(types: seq<AggregatorType>, history: seq<Contribution>, k: Key, i: nat)
    requires ShapedHistory(types, history)
    requires k !in SketchOf(types, history)
    ensures Column(history, k, i) == []
    decreases |history|
  {
    if |history| > 0 {
      ColumnOfAbsent(types, history[..|history| - 1], k, i);
    }
  }

  /** Each column of a register holds the aggregate of all that was sent to it, stated without an order. */
  lemma {:induction false} SketchMeaning(types: seq<AggregatorType>, history: seq<Contribution>, k: Key, i: nat)
    requires ShapedHistory(types, history) && i < |types|
    requires k in SketchOf(types, history)
    ensures |Column(history, k, i)| > 0
    ensures SketchOf(types, history)[k][i] == ColumnValue(types[i], Column(history, k, i))
    decreases |history|
  {
    var front, last := history[..|history| - 1], history[|history| - 1];
    if last.index != k {
      assert Column(history, k, i) == Column(front, k, i);
      SketchMeaning(types, front, k, i);
    } else {
      var v := last.values[i];
      assert Column(history, k, i) == Column(front, k, i) + [v];
      if k in SketchOf(types, front) {
        SketchMeaning(types, front, k, i);
        ColumnValueGrows(types[i], Column(front, k, i), v);
      } else {
        ColumnOfAbsent(types, front, k, i);
        assert Total([v]) == v by {
          assert [v][..0] == [];
        }
      }
    }
  }

  /** One visited key moves one register of the other map across. */
  lemma CombineStep(types: seq<AggregatorType>, m: RegisterMap, theirs: RegisterMap, todo: set<Key>, k: Key)
    requires Shaped(types, m) && Shaped(types, theirs - todo)
    requires k in theirs && k in todo && |theirs[k]| == |types|
    ensures Shaped(types, theirs - (todo - {k}))
    ensures Combine(types, m, theirs - (todo - {k}))
         == Absorb(types, Combine(types, m, theirs - todo), k, theirs[k])
  {
    assert theirs - (todo - {k}) == (theirs - todo)[k := theirs[k]];
    assert Combine(types, m, theirs - (todo - {k})).Keys == m.Keys + (theirs - todo).Keys + {k};
  }

  lemma CombineEmpty(types: seq<AggregatorType>, m: RegisterMap, theirs: RegisterMap)
    requires Shaped(types, m)
    ensures theirs - theirs.Keys == map[] && theirs - {} == theirs
    ensures Combine(types, m, map[]) == m
  {
  }

  /** One operand of MergeAll: the sketch itself, or another one with its register size and what it brings along. */
  datatype Operand = Self | Other(registers: RegisterMap, size: nat, contributions: seq<Contribution>)

  ghost predicate Accepts(types: seq<AggregatorType>, op: Operand) {
    op.Other? ==> op.registers == map[] || op.size == |types|
  }

  ghost predicate WellFormed(op: Operand) {
    op.Other? ==> forall k :: k in op.registers ==> |op.registers[k]| == op.size
  }

  ghost function MergeOne(types: seq<AggregatorType>, m: RegisterMap, op: Operand): (r: RegisterMap)
    requires Shaped(types, m) && WellFormed(op) && Accepts(types, op)
    ensures Shaped(types, r)
  {
    if op.Self? then Combine(types, m, m) else Combine(types, m, op.registers)
  }

  /** All operands in turn, up to the first one that is refused. */
  ghost function MergePrefix(types: seq<AggregatorType>, m: RegisterMap, ops: seq<Operand>): (r: RegisterMap)
    requires Shaped(types, m) && forall op :: op in ops ==> WellFormed(op)
    ensures Shaped(types, r)
    decreases |ops|
  {
    if |ops| == 0 || !Accepts(types, ops[0]) then m
    else MergePrefix(types, MergeOne(types, m, ops[0]), ops[1..])
  }

  ghost function HistoryAfter(history: seq<Contribution>, op: Operand): seq<Contribution> {
    if op.Self? then history + history else history + op.contributions
  }

  /** The contributions that this makes out of those before. */
  ghost function MergedHistory(types: seq<AggregatorType>, history: seq<Contribution>, ops: seq<Operand>)
    : seq<Contribution>
    decreases |ops|
  {
    if |ops| == 0 || !Accepts(types, ops[0]) then history
    else MergedHistory(types, HistoryAfter(history, ops[0]), ops[1..])
  }

  lemma MergedHistoryStep(types: seq<AggregatorType>, history: seq<Contribution>, ops: seq<Operand>, i: nat)
    requires i < |ops|
    ensures MergedHistory(types, history, ops[i..])
         == if Accepts(types, ops[i]) then MergedHistory(types, HistoryAfter(history, ops[i]), ops[i + 1..])
            else history
  {
  }

  /** The first i operands have been merged and the next one is taken. */
  lemma MergePrefixStep(types: seq<AggregatorType>, m: RegisterMap, ops: seq<Operand>, i: nat)
    requires Shaped(types, m) && i < |ops| && forall op :: op in ops ==> WellFormed(op)
    ensures MergePrefix(types, m, ops[i..])
         == if Accepts(types, ops[i]) then MergePrefix(types, MergeOne(types, m, ops[i]), ops[i + 1..]) else m
  {
  }

  lemma NothingToMerge(types: seq<AggregatorType>, m: RegisterMap, history: seq<Contribution>)
    requires Shaped(types, m)
    ensures MergePrefix(types, m, []) == m && MergedHistory(types, history, []) == history
  {
  }

  /** An operand other than the sketch itself may be merged first. */
  lemma {:induction false} MergeEarlier(types: seq<AggregatorType>, m: RegisterMap, ops: seq<Operand>, i: nat)
    requires Shaped(types, m) && i < |ops|
    requires forall op :: op in ops ==> op.Other? && WellFormed(op) && Accepts(types, op)
    ensures forall op :: op in RemoveAt(ops, i) ==> op in ops
    ensures MergePrefix(types, m, ops)
         == MergePrefix(types, MergeOne(types, m, ops[i]), RemoveAt(ops, i))
    decreases |ops|
  {
    var rest := RemoveAt(ops, i);
    if i == 0 {
      assert rest == ops[1..];
    } else {
      var first, op := ops[0].registers, ops[i].registers;
      assert rest[0] == ops[0] && rest[1..] == RemoveAt(ops[1..], i - 1);
      MergeEarlier(types, Combine(types, m, first), ops[1..], i - 1);
      CombineAssociates(types, m, first, op);
      CombineAssociates(types, m, op, first);
      CombineCommutes(types, first, op);
    }
  }

  /** The order in which other sketches are merged does not matter. */
  lemma {:induction false} MergeOrderIrrelevant(
      types: seq<AggregatorType>, m: RegisterMap, xs: seq<Operand>, ys: seq<Operand>)
    requires Shaped(types, m) && multiset(xs) == multiset(ys)
    requires forall op :: op in xs ==> op.Other? && WellFormed(op) && Accepts(types, op)
    ensures forall op :: op in ys ==> op in xs
    ensures MergePrefix(types, m, xs) == MergePrefix(types, m, ys)
    decreases |xs|
  {
    forall op | op in ys
      ensures op in xs
    {
      var i := FindIn(ys, xs, op);
    }
    if |xs| > 0 {
      var i := FindIn(xs, ys, xs[0]);
      MultisetRemoveAt(ys, i);
      MultisetRemoveAt(xs, 0);
      assert RemoveAt(xs, 0) == xs[1..];
      MergeEarlier(types, m, ys, i);
      MergeOrderIrrelevant(types, MergeOne(types, m, xs[0]), xs[1..], RemoveAt(ys, i));
    } else {
      assert |multiset(ys)| == 0;
    }
  }

  /** Merging a sketch into itself doubles its SUM columns and leaves the UNIQUE ones alone. */
  lemma SelfMerge(types: seq<AggregatorType>, m: RegisterMap, k: Key, i: nat)
    requires Shaped(types, m) && k in m && i < |types|
    ensures Combine(types, m, m).Keys == m.Keys
    ensures Combine(types, m, m)[k][i] == if types[i] == Sum then 2 * m[k][i] else m[k][i]
  {
  }
}
