/** When merging two sketches is sketching the union of what went into them. */
module Unions {
  import opened Aggregators
  import opened Histories
  import opened Registers
  import opened Sequences
  import opened Words

  /** Every SUM column of every register is 0. */
  ghost predicate SumsVanish(types: seq<AggregatorType>, m: RegisterMap)
    requires Shaped(types, m)
  {
    forall k, i :: k in m && 0 <= i < |types| && types[i] == Sum ==> m[k][i] == 0
  }

  lemma SharedColumn(types: seq<AggregatorType>, all: seq<Contribution>, shared: seq<Contribution>, k: Key, i: nat)
    requires ShapedHistory(types, all) && ShapedHistory(types, shared) && i < |types|
    requires forall c :: c in shared ==> c in all
    ensures forall v :: v in Column(shared, k, i) ==> v in Column(all, k, i)
  {
    hide Column;
    ColumnElements(types, all, k, i);
    ColumnElements(types, shared, k, i);
    forall v | v in Column(shared, k, i)
      ensures v in Column(all, k, i)
    {
      var g :| 0 <= g < |shared| && shared[g].index == k && shared[g].values[i] == v;
      assert shared[g] in all;
      var h :| 0 <= h < |all| && all[h] == shared[g];
    }
  }

  lemma SharedKeys(types: seq<AggregatorType>, all: seq<Contribution>, shared: seq<Contribution>, k: Key)
    requires ShapedHistory(types, all) && ShapedHistory(types, shared)
    requires forall c :: c in shared ==> c in all
    requires k in SketchOf(types, shared)
    ensures k in SketchOf(types, all)
  {
    hide SketchOf;
    SketchKeys(types, all, k);
    SketchKeys(types, shared, k);
    var g :| 0 <= g < |shared| && shared[g].index == k;
    assert shared[g] in all;
    var h :| 0 <= h < |all| && all[h] == shared[g];
  }

  lemma PartIsUnanimous(all: seq<int>, part: seq<int>)
    requires |all| > 0 && Unanimous(all)
    requires forall v :: v in part ==> v in all
    ensures forall i :: 0 <= i < |part| ==> part[i] == all[0]
  {
    forall i | 0 <= i < |part|
      ensures part[i] == all[0]
    {
      var v := part[i];
      assert v in part;
      var j :| 0 <= j < |all| && all[j] == v;
    }
  }

  /** A UNIQUE column learns nothing from values that it has seen; a SUM column must be told nothing. */
  lemma ColumnUnchanged(t: AggregatorType, all: seq<int>, shared: seq<int>)
    requires |all| > 0 && |shared| > 0
    requires forall v :: v in shared ==> v in all
    ensures Aggregate(t, ColumnValue(t, all), ColumnValue(t, shared)) == ColumnValue(t, all)
       <==> t == Unique || Total(shared) == 0
  {
    if t == Unique && Unanimous(all) {
      PartIsUnanimous(all, shared);
    }
  }

  lemma SumColumn(t: AggregatorType, column: seq<int>)
    requires |column| > 0
    ensures t == Sum ==> ColumnValue(t, column) == Total(column)
  {
  }

  lemma CombineUnchanged(types: seq<AggregatorType>, m: RegisterMap, n: RegisterMap)
    requires Shaped(types, m) && Shaped(types, n) && n.Keys <= m.Keys
    ensures Combine(types, m, n) == m
       <==> forall k, i :: k in n && 0 <= i < |types| ==> Aggregate(types[i], m[k][i], n[k][i]) == m[k][i]
  {
    var r := Combine(types, m, n);
    assert r.Keys == m.Keys;
    if r == m {
      forall k, i | k in n && 0 <= i < |types|
        ensures Aggregate(types[i], m[k][i], n[k][i]) == m[k][i]
      {
        assert r[k] == AggregateTuple(types, m[k], n[k]);
      }
    }
    if forall k, i :: k in n && 0 <= i < |types| ==> Aggregate(types[i], m[k][i], n[k][i]) == m[k][i] {
      forall k | k in m
        ensures r[k] == m[k]
      {
        if k in n {
          assert r[k] == AggregateTuple(types, m[k], n[k]);
        }
      }
    }
  }

  /** Adding contributions once more changes nothing exactly when their SUM columns add up to 0. */
  lemma RepeatedContributions(types: seq<AggregatorType>, all: seq<Contribution>, shared: seq<Contribution>)
    requires ShapedHistory(types, all) && ShapedHistory(types, shared)
    requires forall c :: c in shared ==> c in all
    ensures Combine(types, SketchOf(types, all), SketchOf(types, shared)) == SketchOf(types, all)
       <==> SumsVanish(types, SketchOf(types, shared))
  {
    hide SketchOf, Column, ColumnValue, Total;
    var m, n := SketchOf(types, all), SketchOf(types, shared);
    forall k | k in n
      ensures k in m
    {
      SharedKeys(types, all, shared, k);
    }
    forall k, i | k in n && 0 <= i < |types|
      ensures Aggregate(types[i], m[k][i], n[k][i]) == m[k][i] <==> types[i] == Unique || n[k][i] == 0
    {
      SketchMeaning(types, all, k, i);
      SketchMeaning(types, shared, k, i);
      SharedColumn(types, all, shared, k, i);
      ColumnUnchanged(types[i], Column(all, k, i), Column(shared, k, i));
      SumColumn(types[i], Column(shared, k, i));
    }
    CombineUnchanged(types, m, n);
  }

  /** Merging with a history that repeats some contributions, compared with adding only the new ones. */
  lemma MergeWithRepeats(types: seq<AggregatorType>, a: seq<Contribution>, shared: seq<Contribution>,
                         fresh': seq<Contribution>)
    requires ShapedHistory(types, a) && ShapedHistory(types, shared) && ShapedHistory(types, fresh')
    requires forall c :: c in shared ==> c in a
    ensures ShapedHistory(types, shared + fresh') && ShapedHistory(types, a + fresh')
    ensures Combine(types, SketchOf(types, a), SketchOf(types, shared + fresh')) == SketchOf(types, a + fresh')
       <==> SumsVanish(types, SketchOf(types, shared))
  {
    hide SketchOf, Combine, SumsVanish;
    MergeIsConcatenation(types, a, shared + fresh');
    MergeIsConcatenation(types, a + fresh', shared);
    assert multiset(a + (shared + fresh')) == multiset(a + fresh' + shared);
    InsertionOrderIrrelevant(types, a + (shared + fresh'), a + fresh' + shared);
    RepeatedContributions(types, a + fresh', shared);
  }

  lemma MappedHistory<T>(types: seq<AggregatorType>, f: T -> Contribution, s: seq<T>, items: set<T>)
    requires forall x :: x in items ==> |f(x).values| == |types|
    requires forall x :: x in s ==> x in items
    ensures ShapedHistory(types, Map(f, s))
  {
  }

  lemma MappedElements<T>(f: T -> Contribution, s: seq<T>, t: seq<T>)
    requires forall x :: x in s ==> x in t
    ensures forall c :: c in Map(f, s) ==> c in Map(f, t)
  {
    forall c | c in Map(f, s)
      ensures c in Map(f, t)
    {
      var i :| 0 <= i < |s| && Map(f, s)[i] == c;
      assert s[i] in s;
      var j :| 0 <= j < |t| && t[j] == s[i];
      assert Map(f, t)[j] == c;
    }
  }

  /**
   * Two sets of items, sketched in any order: merging gives the sketch of the union exactly when the items
   * in both sets add up to 0 in every SUM column.
   */
  lemma MergeIsUnionIff<T>(types: seq<AggregatorType>, f: T -> Contribution, a: seq<T>, b: seq<T>, union: seq<T>,
                           both: seq<T>, first: set<T>, second: set<T>)
    requires forall x :: x in first + second ==> |f(x).values| == |types|
    requires Lists(a, first) && Lists(b, second) && Lists(union, first + second) && Lists(both, first * second)
    ensures ShapedHistory(types, Map(f, a)) && ShapedHistory(types, Map(f, b))
    ensures ShapedHistory(types, Map(f, union)) && ShapedHistory(types, Map(f, both))
    ensures Combine(types, SketchOf(types, Map(f, a)), SketchOf(types, Map(f, b))) == SketchOf(types, Map(f, union))
       <==> SumsVanish(types, SketchOf(types, Map(f, both)))
  {
    ListedItems(a, first);
    ListedItems(b, second);
    ListedItems(union, first + second);
    ListedItems(both, first * second);
    hide *;
    var rest := UnionListing(b, union, a, both, first, second);
    MappedHistory(types, f, a, first + second);
    MappedHistory(types, f, b, first + second);
    MappedHistory(types, f, union, first + second);
    MappedHistory(types, f, both, first + second);
    MappedHistory(types, f, rest, first + second);
    MapKeepsMultisets(f, b, both + rest);
    MapKeepsMultisets(f, union, a + rest);
    MapConcatenation(f, both, rest);
    MapConcatenation(f, a, rest);
    MappedElements(f, both, a);
    MergeWithRepeats(types, Map(f, a), Map(f, both), Map(f, rest));
    InsertionOrderIrrelevant(types, Map(f, b), Map(f, both) + Map(f, rest));
    InsertionOrderIrrelevant(types, Map(f, union), Map(f, a) + Map(f, rest));
  }

  // What a caller can check beforehand.

  ghost predicate NoSums(types: seq<AggregatorType>) {
    forall i :: 0 <= i < |types| ==> types[i] != Sum
  }

  lemma {:induction false} PositiveTotal(column: seq<int>)
    requires forall h :: 0 <= h < |column| ==> column[h] > 0
    ensures Total(column) >= |column|
    decreases |column|
  {
    if |column| > 0 {
      PositiveTotal(column[..|column| - 1]);
    }
  }

  lemma EmptySketch(types: seq<AggregatorType>)
    ensures SketchOf(types, []) == map[]
  {
  }

  /** Positive values do not add up to 0. */
  lemma PositiveSums(types: seq<AggregatorType>, shared: seq<Contribution>)
    requires ShapedHistory(types, shared)
    requires forall c, i :: c in shared && 0 <= i < |types| && types[i] == Sum ==> c.values[i] > 0
    ensures SumsVanish(types, SketchOf(types, shared)) <==> shared == [] || NoSums(types)
  {
    hide SketchOf, Column, ColumnValue, Total;
    var m := SketchOf(types, shared);
    if shared != [] && !NoSums(types) {
      var i :| 0 <= i < |types| && types[i] == Sum;
      var k := shared[0].index;
      SketchKeys(types, shared, k);
      SketchMeaning(types, shared, k, i);
      ColumnElements(types, shared, k, i);
      var column := Column(shared, k, i);
      forall g | 0 <= g < |column|
        ensures column[g] > 0
      {
        var v := column[g];
        assert v in column;
        var h :| 0 <= h < |shared| && shared[h].index == k && shared[h].values[i] == v;
        assert shared[h] in shared;
      }
      PositiveTotal(column);
      SumColumn(types[i], column);
      assert m[k][i] > 0;
    }
    if shared == [] {
      EmptySketch(types);
    }
  }

  /** Disjoint sets, or sketches without SUM columns, always merge to the sketch of the union. */
  lemma MergeIsUnion<T>(types: seq<AggregatorType>, f: T -> Contribution, a: seq<T>, b: seq<T>, union: seq<T>,
                        first: set<T>, second: set<T>)
    requires forall x :: x in first + second ==> |f(x).values| == |types|
    requires Lists(a, first) && Lists(b, second) && Lists(union, first + second)
    requires first !! second || NoSums(types)
    ensures ShapedHistory(types, Map(f, a)) && ShapedHistory(types, Map(f, b)) && ShapedHistory(types, Map(f, union))
    ensures Combine(types, SketchOf(types, Map(f, a)), SketchOf(types, Map(f, b))) == SketchOf(types, Map(f, union))
  {
    hide SketchOf, Combine, Map;
    var both := SomeListing(first * second);
    MergeIsUnionIff(types, f, a, b, union, both, first, second);
    if first !! second {
      ListedItems(both, {});
      assert both == [];
      EmptySketch(types);
      assert Map(f, both) == [];
    }
  }

  /** If the items that are in both sets count positively, nothing else does. */
  lemma MergeIsUnionOnlyIf<T>(types: seq<AggregatorType>, f: T -> Contribution, a: seq<T>, b: seq<T>, union: seq<T>,
                              first: set<T>, second: set<T>)
    requires forall x :: x in first + second ==> |f(x).values| == |types|
    requires Lists(a, first) && Lists(b, second) && Lists(union, first + second)
    requires forall x, i :: x in first * second && 0 <= i < |types| && types[i] == Sum ==> f(x).values[i] > 0
    ensures ShapedHistory(types, Map(f, a)) && ShapedHistory(types, Map(f, b)) && ShapedHistory(types, Map(f, union))
    ensures Combine(types, SketchOf(types, Map(f, a)), SketchOf(types, Map(f, b))) == SketchOf(types, Map(f, union))
       <==> first !! second || NoSums(types)
  {
    hide SketchOf, Combine, SumsVanish;
    var both := SomeListing(first * second);
    MergeIsUnionIff(types, f, a, b, union, both, first, second);
    ListedItems(both, first * second);
    forall c, i | c in Map(f, both) && 0 <= i < |types| && types[i] == Sum
      ensures c.values[i] > 0
    {
      var h :| 0 <= h < |both| && Map(f, both)[h] == c;
      assert both[h] in both;
    }
    PositiveSums(types, Map(f, both));
    if both != [] {
      assert both[0] in both;
    }
  }

  /** One item that both sketches counted once is counted twice after the merge. */
  lemma SharedItemCountsTwice<T>(item: T)
    ensures var types, history := [Sum], Map((x: T) => Contribution(0, [1]), [item]);
            && SketchOf(types, history) == map[0 := [1]]
            && Combine(types, SketchOf(types, history), SketchOf(types, history)) == map[0 := [2]]
  {
    var types, history := [Sum], Map((x: T) => Contribution(0, [1]), [item]);
    assert history[..0] == [] && history[0] == Contribution(0, [1]);
    assert SketchOf(types, history) == Absorb(types, SketchOf(types, history[..0]), 0, [1]);
    assert AggregateTuple(types, [1], [1]) == [2];
  }
}
