/** The sketch class: a map from register number to a tuple of values, updated in place. */
module AnySketches {
  import opened Aggregators
  import opened Distributions
  import opened LinearIndex
  import opened Registers
  import opened Results
  import opened Sequences
  import opened Words

  datatype ValueFunction = ValueFunction(aggregator: AggregatorType, distribution: Distribution)

  /** What every distribution in the list says about an item, or the first failure. */
  function ApplyAll(ds: seq<Distribution>, item: string, metadata: Metadata): (r: Result<seq<int>>)
    ensures r.Success? ==> |r.value| == |ds|
    ensures r.Success? ==> forall i :: 0 <= i < |ds| ==> ds[i].min <= r.value[i] <= ds[i].max
  {
    if |ds| == 0 then Success([])
    else
      var n := |ds| - 1;
      match ApplyAll(ds[..n], item, metadata)
      case Failure(e) => Failure(e)
      case Success(front) =>
        match ds[n].Apply(item, metadata)
        case Failure(e) => Failure(e)
        case Success(v) => Success(front + [v])
  }

  lemma {:induction false} ApplyAllPrefix(ds: seq<Distribution>, item: string, metadata: Metadata, n: nat)
    requires n <= |ds|
    ensures ApplyAll(ds[..n], item, metadata).Failure? ==>
              ApplyAll(ds, item, metadata) == ApplyAll(ds[..n], item, metadata)
    decreases |ds|
  {
    if n < |ds| {
      assert ds[..|ds| - 1][..n] == ds[..n];
      ApplyAllPrefix(ds[..|ds| - 1], item, metadata, n);
    } else {
      assert ds[..n] == ds;
    }
  }

  /** This distribution is the first one that the item fails on. */
  ghost predicate FailsFirst(ds: seq<Distribution>, item: string, metadata: Metadata, e: Error) {
    exists i :: 0 <= i < |ds| && ds[i].Apply(item, metadata) == Failure(e)
                && forall j :: 0 <= j < i ==> ds[j].Apply(item, metadata).Success?
  }

  ghost predicate AllAccept(ds: seq<Distribution>, item: string, metadata: Metadata) {
    forall i :: 0 <= i < |ds| ==> ds[i].Apply(item, metadata).Success?
  }

  lemma FailsEarlier(ds: seq<Distribution>, item: string, metadata: Metadata, n: nat, e: Error)
    requires n < |ds|
    ensures FailsFirst(ds[..n], item, metadata, e) ==>
              FailsFirst(ds, item, metadata, e) && !AllAccept(ds, item, metadata)
    ensures AllAccept(ds[..n], item, metadata) && ds[n].Apply(item, metadata) == Failure(e) ==>
              FailsFirst(ds, item, metadata, e)
  {
    hide Distribution.Apply;
    var front := ds[..n];
    assert forall i :: 0 <= i < n ==> front[i] == ds[i];
    if FailsFirst(front, item, metadata, e) {
      var i :| 0 <= i < n && front[i].Apply(item, metadata) == Failure(e)
               && forall j :: 0 <= j < i ==> front[j].Apply(item, metadata).Success?;
      assert ds[i].Apply(item, metadata) == Failure(e);
    }
  }

  lemma AcceptOneMore(ds: seq<Distribution>, item: string, metadata: Metadata, n: nat)
    requires |ds| == n + 1
    ensures AllAccept(ds, item, metadata)
       <==> AllAccept(ds[..n], item, metadata) && ds[n].Apply(item, metadata).Success?
  {
    hide Distribution.Apply;
    assert forall i :: 0 <= i < n ==> ds[..n][i] == ds[i];
  }

  /** A value of every distribution, in order, or the failure of the first one that has none. */
  lemma {:induction false} ApplyAllMeaning(ds: seq<Distribution>, item: string, metadata: Metadata)
    ensures ApplyAll(ds, item, metadata).Success? <==> AllAccept(ds, item, metadata)
    ensures ApplyAll(ds, item, metadata).Success? ==>
              forall i :: 0 <= i < |ds| ==>
                            ds[i].Apply(item, metadata) == Success(ApplyAll(ds, item, metadata).value[i])
    ensures ApplyAll(ds, item, metadata).Failure? ==> FailsFirst(ds, item, metadata, ApplyAll(ds, item, metadata).error)
    decreases |ds|
  {
    hide FailsFirst, Distribution.Apply;
    if |ds| > 0 {
      hide AllAccept;
      var n := |ds| - 1;
      ApplyAllMeaning(ds[..n], item, metadata);
      AcceptOneMore(ds, item, metadata, n);
      if ApplyAll(ds, item, metadata).Failure? {
        FailsEarlier(ds, item, metadata, n, ApplyAll(ds, item, metadata).error);
      } else {
        assert forall i :: 0 <= i < n ==> ds[..n][i] == ds[i];
      }
    }
  }

  function Sizes(ds: seq<Distribution>): (r: seq<nat>)
    ensures |r| == |ds|
  {
    seq(|ds|, i requires 0 <= i < |ds| => if ds[i].Size() < 0 then 0 else ds[i].Size())
  }

  /** Offsets of distribution values from their minimum; the bounds hold for values that Apply let through. */
  function Parts(ds: seq<Distribution>, values: seq<int>): (r: seq<nat>)
    requires |values| == |ds|
    requires forall i :: 0 <= i < |ds| ==> ds[i].min <= values[i] <= ds[i].max
    ensures InRange(Sizes(ds), r)
  {
    seq(|ds|, i requires 0 <= i < |ds| => values[i] - ds[i].min)
  }

  ghost function WordProduct(ds: seq<Distribution>): nat {
    Word(Product(Sizes(ds)))
  }

  /** The register number of these values: linearized over unbounded integers, reduced to a word once. */
  ghost function WordIndex(ds: seq<Distribution>, values: seq<int>): nat
    requires |values| == |ds|
    requires forall i :: 0 <= i < |ds| ==> ds[i].min <= values[i] <= ds[i].max
  {
    Word(Linear(Sizes(ds), Parts(ds, values)))
  }

  lemma WordStep(ds: seq<Distribution>, values: seq<int>, n: nat)
    requires n + 1 == |values| == |ds|
    requires forall i :: 0 <= i < |ds| ==> ds[i].min <= values[i] <= ds[i].max
    ensures WordProduct(ds) == MulAdd(WordProduct(ds[..n]), ds[n].Size(), 0)
    ensures WordIndex(ds, values)
         == MulAdd(WordProduct(ds[..n]), WordIndex(ds[..n], values[..n]), values[n] - ds[n].min)
  {
    assert Sizes(ds)[..n] == Sizes(ds[..n]);
    assert Parts(ds, values)[..n] == Parts(ds[..n], values[..n]);
    var p, l := Product(Sizes(ds[..n])), Linear(Sizes(ds[..n]), Parts(ds[..n], values[..n]));
    MulAddReduced(p, l, values[n] - ds[n].min);
    MulAddReduced(p, ds[n].Size(), 0);
  }

  /** What the loop of GetIndex holds after its first n distributions. */
  ghost predicate Scanned(ds: seq<Distribution>, item: string, metadata: Metadata,
                          n: nat, product: nat, linearized: nat)
    requires n <= |ds|
  {
    && ApplyAll(ds[..n], item, metadata).Success?
    && product == WordProduct(ds[..n])
    && linearized == WordIndex(ds[..n], ApplyAll(ds[..n], item, metadata).value)
  }

  lemma ScanStart(ds: seq<Distribution>, item: string, metadata: Metadata)
    ensures Scanned(ds, item, metadata, 0, 1, 0)
  {
  }

  /** One turn of that loop, in its own 64-bit arithmetic. */
  lemma ScanStep(ds: seq<Distribution>, item: string, metadata: Metadata,
                 n: nat, product: nat, linearized: nat)
    requires n < |ds| && Scanned(ds, item, metadata, n, product, linearized)
    requires ds[n].Apply(item, metadata).Success?
    ensures ds[n].Size() >= 1
    ensures var part := ds[n].Apply(item, metadata).value - ds[n].min;
            Scanned(ds, item, metadata, n + 1, MulAdd(product, ds[n].Size(), 0), MulAdd(product, linearized, part))
  {
    var vs, v := ApplyAll(ds[..n], item, metadata).value, ds[n].Apply(item, metadata).value;
    assert ds[..n + 1][..n] == ds[..n];
    assert (vs + [v])[..n] == vs;
    WordStep(ds[..n + 1], vs + [v], n);
    hide WordProduct, WordIndex, MulAdd, Parts;
    assert ApplyAll(ds[..n + 1], item, metadata) == Success(vs + [v]);
  }

  /** A prefix that some distribution fails on decides the whole list. */
  lemma IndexFailure(ds: seq<Distribution>, item: string, metadata: Metadata, n: nat)
    requires n < |ds| && ApplyAll(ds[..n], item, metadata).Success?
    requires ds[n].Apply(item, metadata).Failure?
    ensures ApplyAll(ds, item, metadata) == Failure(ds[n].Apply(item, metadata).error)
  {
    assert ds[..n + 1][..n] == ds[..n];
    ApplyAllPrefix(ds, item, metadata, n + 1);
  }

  class AnySketch {
    var registers: RegisterMap
    const indexes: seq<Distribution>
    const values: seq<ValueFunction>
    ghost var history: seq<Contribution>

    constructor (indexes: seq<Distribution>, values: seq<ValueFunction>)
      ensures Valid()
      ensures this.indexes == indexes && this.values == values && registers == map[] && history == []
    {
      this.indexes := indexes;
      this.values := values;
      registers := map[];
      history := [];
    }

    function Types(): (types: seq<AggregatorType>)
      ensures |types| == |values|
      ensures forall i :: 0 <= i < |values| ==> types[i] == values[i].aggregator
    {
      seq(|values|, i requires 0 <= i < |values| => values[i].aggregator)
    }

    /** The registers are the sketch of all contributions so far. */
    ghost predicate Valid()
      reads this
      ensures Valid() ==> Shaped(Types(), registers)
    {
      ShapedHistory(Types(), history) && registers == SketchOf(Types(), history)
    }

    method AggregateIntoRegister(index: int, newValues: seq<int>) returns (status: Status)
      requires Valid()
      modifies this`registers, this`history
      ensures Valid()
      ensures status == if |newValues| == |values| then Ok else Failed(InvalidArgument)
      ensures registers == if status.Ok? then Absorb(Types(), old(registers), ToUint64(index), newValues)
                           else old(registers)
      ensures history == if status.Ok? then old(history) + [Contribution(ToUint64(index), newValues)]
                         else old(history)
    {
      hide SketchOf;
      if |newValues| != |values| {
        return Failed(InvalidArgument);
      }
      var key := ToUint64(index);
      history := history + [Contribution(key, newValues)];
      SketchOfLonger(Types(), old(history), Contribution(key, newValues));
      if key !in registers {
        registers := registers[key := newValues];
        return Ok;
      }
      for i := 0 to |values|
        invariant history == old(history) + [Contribution(key, newValues)]
        invariant key in registers && |registers[key]| == |values|
        invariant registers == old(registers)[key := registers[key]]
        invariant forall j :: 0 <= j < i ==>
                    registers[key][j] == Aggregate(Types()[j], old(registers)[key][j], newValues[j])
        invariant forall j :: i <= j < |values| ==> registers[key][j] == old(registers)[key][j]
      {
        var values' := registers[key];
        registers := registers[key := values'[i := Aggregate(values[i].aggregator, values'[i], newValues[i])]];
      }
      assert registers[key] == AggregateTuple(Types(), old(registers)[key], newValues);
      return Ok;
    }

    /** The register number an item is meant to have, over unbounded integers, reduced to a word at the end. */
    ghost function RegisterOf(item: string, metadata: Metadata): (r: Result<nat>)
      ensures r.Success? ==> r.value < WORD
    {
      match ApplyAll(indexes, item, metadata)
      case Failure(e) => Failure(e)
      case Success(vs) => Success(WordIndex(indexes, vs))
    }

    lemma ScanFailed(item: string, metadata: Metadata, n: nat, product: nat, linearized: nat)
      requires n < |indexes| && Scanned(indexes, item, metadata, n, product, linearized)
      requires indexes[n].Apply(item, metadata).Failure?
      ensures RegisterOf(item, metadata) == Failure(indexes[n].Apply(item, metadata).error)
    {
      IndexFailure(indexes, item, metadata, n);
    }

    lemma ScanDone(item: string, metadata: Metadata, product: nat, linearized: nat)
      requires Scanned(indexes, item, metadata, |indexes|, product, linearized)
      ensures RegisterOf(item, metadata) == Success(linearized)
    {
      assert indexes[..|indexes|] == indexes;
    }

    method GetIndex(item: string, metadata: Metadata) returns (r: Result<int>)
      ensures r.Success? ==> RegisterOf(item, metadata).Success? && r.value == ToInt64(RegisterOf(item, metadata).value)
      ensures r.Failure? ==> RegisterOf(item, metadata) == Failure(r.error)
    {
      hide *;
      var product: nat, linearized: nat := 1, 0;
      ScanStart(indexes, item, metadata);
      for n := 0 to |indexes|
        invariant Scanned(indexes, item, metadata, n, product, linearized)
      {
        var applied := indexes[n].Apply(item, metadata);
        if applied.Failure? {
          ScanFailed(item, metadata, n, product, linearized);
          return Failure(applied.error);
        }
        ScanStep(indexes, item, metadata, n, product, linearized);
        linearized := MulAdd(product, linearized, applied.value - indexes[n].min);
        product := MulAdd(product, indexes[n].Size(), 0);
      }
      ScanDone(item, metadata, product, linearized);
      return Success(ToInt64(linearized));
    }

    function ValueDistributions(): (ds: seq<Distribution>)
      ensures |ds| == |values|
      ensures forall i :: 0 <= i < |values| ==> ds[i] == values[i].distribution
    {
      seq(|values|, i requires 0 <= i < |values| => values[i].distribution)
    }

    /** The offsets of the item's index values from the minima of their distributions. */
    ghost predicate HasParts(item: string, metadata: Metadata, parts: seq<nat>) {
      && |parts| == |indexes|
      && forall i :: 0 <= i < |indexes| ==> indexes[i].Apply(item, metadata) == Success(parts[i] + indexes[i].min)
    }

    /** What an item adds to the sketch: the linearized offsets, reduced to a word, and its value in every column. */
    ghost predicate Contributes(item: string, metadata: Metadata, c: Contribution) {
      && (exists parts :: HasParts(item, metadata, parts) && c.index == Linear(Sizes(indexes), parts) % WORD)
      && |c.values| == |values|
      && forall i :: 0 <= i < |values| ==> values[i].distribution.Apply(item, metadata) == Success(c.values[i])
    }

    lemma RegisterMeaning(item: string, metadata: Metadata) returns (parts: seq<nat>)
      ensures RegisterOf(item, metadata).Success? <==> AllAccept(indexes, item, metadata)
      ensures RegisterOf(item, metadata).Success? ==>
                HasParts(item, metadata, parts)
                && RegisterOf(item, metadata).value == Linear(Sizes(indexes), parts) % WORD
      ensures RegisterOf(item, metadata).Failure? ==>
                FailsFirst(indexes, item, metadata, RegisterOf(item, metadata).error)
    {
      hide ApplyAll, Linear, FailsFirst, AllAccept;
      ApplyAllMeaning(indexes, item, metadata);
      parts := [];
      if ApplyAll(indexes, item, metadata).Success? {
        parts := Parts(indexes, ApplyAll(indexes, item, metadata).value);
      }
    }

    /** There is at most one such contribution. */
    lemma ContributionUnique(item: string, metadata: Metadata, c: Contribution, c': Contribution)
      requires Contributes(item, metadata, c) && Contributes(item, metadata, c')
      ensures c == c'
    {
      hide Linear;
      var p :| HasParts(item, metadata, p) && c.index == Linear(Sizes(indexes), p) % WORD;
      var p' :| HasParts(item, metadata, p') && c'.index == Linear(Sizes(indexes), p') % WORD;
      assert forall i :: 0 <= i < |indexes| ==> Success(p[i] + indexes[i].min) == Success(p'[i] + indexes[i].min);
      assert p == p';
      assert forall i :: 0 <= i < |values| ==> Success(c.values[i]) == Success(c'.values[i]);
      assert c.values == c'.values;
    }

    lemma NoContribution(item: string, metadata: Metadata, e: Error)
      ensures FailsFirst(indexes, item, metadata, e) ==>
                FailsFirst(indexes + ValueDistributions(), item, metadata, e)
                && !(AllAccept(indexes, item, metadata) && AllAccept(ValueDistributions(), item, metadata))
      ensures AllAccept(indexes, item, metadata) && FailsFirst(ValueDistributions(), item, metadata, e) ==>
                FailsFirst(indexes + ValueDistributions(), item, metadata, e)
                && !AllAccept(ValueDistributions(), item, metadata)
    {
      var vs := ValueDistributions();
      if FailsFirst(indexes, item, metadata, e) {
        var i :| 0 <= i < |indexes| && indexes[i].Apply(item, metadata) == Failure(e)
                 && forall j :: 0 <= j < i ==> indexes[j].Apply(item, metadata).Success?;
        assert (indexes + vs)[i] == indexes[i];
      }
      if AllAccept(indexes, item, metadata) && FailsFirst(vs, item, metadata, e) {
        var i :| 0 <= i < |vs| && vs[i].Apply(item, metadata) == Failure(e)
                 && forall j :: 0 <= j < i ==> vs[j].Apply(item, metadata).Success?;
        assert (indexes + vs)[|indexes| + i] == vs[i];
      }
    }

    method NewValues(item: string, metadata: Metadata) returns (r: Result<seq<int>>)
      ensures r == ApplyAll(ValueDistributions(), item, metadata)
    {
      ghost var ds := ValueDistributions();
      assert ds[..|ds|] == ds;
      var newValues: seq<int> := [];
      for i := 0 to |values|
        invariant ApplyAll(ds[..i], item, metadata) == Success(newValues)
      {
        assert ds[..i + 1][..i] == ds[..i];
        var applied := values[i].distribution.Apply(item, metadata);
        if applied.Failure? {
          IndexFailure(ds, item, metadata, i);
          return Failure(applied.error);
        }
        newValues := newValues + [applied.value];
      }
      return Success(newValues);
    }

    /** The item is inserted if every distribution has a value for it; otherwise the first one without is to blame. */
    method Insert(item: string, metadata: Metadata) returns (status: Status)
      requires Valid()
      modifies this`registers, this`history
      ensures Valid()
      ensures status == Ok
         <==> AllAccept(indexes, item, metadata) && AllAccept(ValueDistributions(), item, metadata)
      ensures status == Ok ==>
                && |history| == |old(history)| + 1
                && history[..|old(history)|] == old(history)
                && var c := history[|old(history)|];
                && Contributes(item, metadata, c)
                && registers == Absorb(Types(), old(registers), c.index, c.values)
      ensures status != Ok ==>
                && FailsFirst(indexes + ValueDistributions(), item, metadata, status.error)
                && registers == old(registers)
                && history == old(history)
    {
      hide ApplyAll, FailsFirst, AllAccept, SketchOf, Absorb;
      ghost var parts := RegisterMeaning(item, metadata);
      ApplyAllMeaning(ValueDistributions(), item, metadata);
      var index := GetIndex(item, metadata);
      if index.Failure? {
        NoContribution(item, metadata, index.error);
        return Failed(index.error);
      }
      var newValues := NewValues(item, metadata);
      if newValues.Failure? {
        NoContribution(item, metadata, newValues.error);
        return Failed(newValues.error);
      }
      status := AggregateIntoRegister(index.value, newValues.value);
      WordRoundTrip(RegisterOf(item, metadata).value);
    }

    /** What a merge adds to the history: the other history, or, under other aggregators, the other registers. */
    ghost function Received(other: AnySketch): seq<Contribution>
      reads other
    {
      if other.Types() == Types() then other.history else Listing(other.registers)
    }

    lemma MergedSketch(mine: seq<Contribution>, other: AnySketch)
      requires ShapedHistory(Types(), mine) && other.Valid()
      requires |other.values| == |values| || other.registers == map[]
      ensures ShapedHistory(Types(), mine + Received(other)) && Shaped(Types(), other.registers)
      ensures Combine(Types(), SketchOf(Types(), mine), other.registers)
           == SketchOf(Types(), mine + Received(other))
    {
      hide SketchOf, Combine, Listing;
      if other.Types() != Types() {
        SketchOfListing(Types(), other.registers);
      }
      MergeIsConcatenation(Types(), mine, Received(other));
    }

    /** The other sketch may be this one; its registers are visited in any order. */
    method Merge(other: AnySketch) returns (status: Status)
      requires Valid() && other.Valid()
      modifies this`registers, this`history
      ensures Valid()
      ensures status == if |other.values| == |values| || old(other.registers) == map[] then Ok
                        else Failed(InvalidArgument)
      ensures status.Ok? ==> Shaped(Types(), old(other.registers))
      ensures registers == if status.Ok? then Combine(Types(), old(registers), old(other.registers))
                           else old(registers)
      ensures history == if status.Ok? then old(history) + old(Received(other)) else old(history)
    {
      hide SketchOf, Listing;
      ghost var mine, theirs := registers, other.registers;
      ghost var received := Received(other);
      CombineEmpty(Types(), mine, theirs);
      if |other.values| == |values| || theirs == map[] {
        MergedSketch(history, other);
      }
      var todo := other.registers.Keys;
      while todo != {}
        invariant Valid() && todo <= theirs.Keys
        invariant forall k :: k in todo ==> k in other.registers && other.registers[k] == theirs[k]
        invariant |other.values| == |values| || (todo == theirs.Keys && history == old(history))
        invariant Shaped(Types(), theirs - todo)
        invariant registers == Combine(Types(), mine, theirs - todo)
        decreases todo
      {
        ghost var some := Some(todo);
        var item :| item in todo;
        WordRoundTrip(item);
        status := AggregateIntoRegister(ToInt64(item), other.registers[item]);
        if status != Ok {
          return;
        }
        CombineStep(Types(), mine, theirs, todo, item);
        todo := todo - {item};
      }
      history := old(history) + received;
      return Ok;
    }

    /** A MergeAll argument as seen from this sketch. */
    ghost function OperandOf(other: AnySketch): Operand
      reads other
    {
      if other == this then Self else Other(other.registers, |other.values|, Received(other))
    }

    ghost function Operands(others: seq<AnySketch>): (ops: seq<Operand>)
      reads others
      ensures |ops| == |others|
      ensures forall i :: 0 <= i < |others| ==> ops[i] == OperandOf(others[i])
    {
      seq(|others|, i requires 0 <= i < |others| reads others => OperandOf(others[i]))
    }

    lemma OperandFacts(other: AnySketch)
      requires Valid() && other.Valid()
      ensures OperandOf(this) == Self
      ensures WellFormed(OperandOf(other))
      ensures Accepts(Types(), OperandOf(other)) <==> |other.values| == |values| || other.registers == map[]
      ensures Accepts(Types(), OperandOf(other)) ==>
                && Shaped(Types(), other.registers)
                && MergeOne(Types(), registers, OperandOf(other)) == Combine(Types(), registers, other.registers)
                && HistoryAfter(history, OperandOf(other)) == history + Received(other)
    {
      hide SketchOf, Combine, Listing;
    }

    lemma OperandsWellFormed(others: seq<AnySketch>)
      requires forall other :: other in others ==> other.Valid()
      ensures forall op :: op in Operands(others) ==> WellFormed(op)
    {
      forall op | op in Operands(others)
        ensures WellFormed(op)
      {
        var i :| 0 <= i < |others| && Operands(others)[i] == op;
        assert others[i] in others;
      }
    }

    /** On failure the registers are those merged before the sketch that was refused. */
    method MergeAll(others: seq<AnySketch>) returns (status: Status)
      requires Valid() && forall other :: other in others ==> other.Valid()
      modifies this`registers, this`history
      ensures Valid()
      ensures forall op :: op in old(Operands(others)) ==> WellFormed(op)
      ensures registers == MergePrefix(Types(), old(registers), old(Operands(others)))
      ensures history == MergedHistory(Types(), old(history), old(Operands(others)))
      ensures status == if forall op :: op in old(Operands(others)) ==> Accepts(Types(), op) then Ok
                        else Failed(InvalidArgument)
    {
      hide *;
      ghost var ops := Operands(others);
      OperandsWellFormed(others);
      assert ops[0..] == ops;
      for i := 0 to |others|
        invariant Valid() && forall other :: other in others ==> other.Valid()
        invariant forall j :: i <= j < |others| ==> OperandOf(others[j]) == ops[j]
        invariant MergePrefix(Types(), registers, ops[i..]) == MergePrefix(Types(), old(registers), ops)
        invariant MergedHistory(Types(), history, ops[i..]) == MergedHistory(Types(), old(history), ops)
        invariant forall j :: 0 <= j < i ==> Accepts(Types(), ops[j])
      {
        MergePrefixStep(Types(), registers, ops, i);
        MergedHistoryStep(Types(), history, ops, i);
        OperandFacts(others[i]);
        assert ops[i] in ops;
        status := Merge(others[i]);
        OperandFacts(this);
        if status != Ok {
          return;
        }
      }
      NothingToMerge(Types(), registers, history);
      return Ok;
    }
  }
}
