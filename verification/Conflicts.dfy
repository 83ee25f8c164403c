/** From runs of a sketch to its encrypted registers: conflicting contributions and destroyed registers. */
module Conflicts {
  import opened Aggregators
  import opened Histories
  import opened Registers
  import opened Results
  import opened Sampling
  import opened Sequences
  import opened Words
  import AnySketches
  import Curves
  import Decimals
  import Decryption
  import Encrypters

  /** Two contributions to register k disagree in column i. */
  ghost predicate Disagree(history: seq<Contribution>, k: Key, i: nat)
    requires forall h :: 0 <= h < |history| ==> i < |history[h].values|
  {
    exists g, h :: 0 <= g < |history| && 0 <= h < |history| && history[g].index == k && history[h].index == k
                   && history[g].values[i] != history[h].values[i]
  }

  ghost predicate Negative(history: seq<Contribution>, k: Key, i: nat)
    requires forall h :: 0 <= h < |history| ==> i < |history[h].values|
  {
    exists h :: 0 <= h < |history| && history[h].index == k && history[h].values[i] < 0
  }

  lemma UnanimousIsNoConflict(types: seq<AggregatorType>, history: seq<Contribution>, k: Key, i: nat)
    requires ShapedHistory(types, history) && i < |types|
    ensures Unanimous(Column(history, k, i)) <==> !Disagree(history, k, i)
  {
    var column := Column(history, k, i);
    ColumnElements(types, history, k, i);
    if Disagree(history, k, i) {
      var g, h :| 0 <= g < |history| && 0 <= h < |history| && history[g].index == k && history[h].index == k
                  && history[g].values[i] != history[h].values[i];
      assert history[g].values[i] in column && history[h].values[i] in column;
    }
    if !Unanimous(column) {
      var a, b :| 0 <= a < |column| && 0 <= b < |column| && column[a] != column[b];
      assert column[a] in column && column[b] in column;
      var g :| 0 <= g < |history| && history[g].index == k && history[g].values[i] == column[a];
      var h :| 0 <= h < |history| && history[h].index == k && history[h].values[i] == column[b];
      assert history[g].values[i] != history[h].values[i];
    }
  }

  /** A UNIQUE column is stored as a negative number for exactly two reasons. */
  lemma NegativeUniqueColumn(types: seq<AggregatorType>, history: seq<Contribution>, k: Key, i: nat)
    requires ShapedHistory(types, history) && i < |types| && types[i] == Unique
    requires k in SketchOf(types, history)
    ensures SketchOf(types, history)[k][i] < 0 <==> Disagree(history, k, i) || Negative(history, k, i)
  {
    hide SketchOf, Column;
    var column := Column(history, k, i);
    Registers.SketchMeaning(types, history, k, i);
    UnanimousIsNoConflict(types, history, k, i);
    ColumnElements(types, history, k, i);
    assert column[0] in column;
    if Negative(history, k, i) {
      var h :| 0 <= h < |history| && history[h].index == k && history[h].values[i] < 0;
      var v := history[h].values[i];
      assert v in column;
      var a :| 0 <= a < |column| && column[a] == v;
      assert Unanimous(column) ==> column[0] == v;
    }
  }

  function ProtoAggregatorOf(t: AggregatorType): Encrypters.ProtoAggregator {
    match t
    case Sum => Encrypters.SUM
    case Unique => Encrypters.UNIQUE
  }

  function ConfigOf(types: seq<AggregatorType>): (config: seq<Encrypters.ProtoAggregator>)
    ensures |config| == |types|
  {
    seq(|types|, i requires 0 <= i < |types| => ProtoAggregatorOf(types[i]))
  }

  /** A stored register in its proto form: a signed index, and each column coded by its aggregator. */
  function ToProto(types: seq<AggregatorType>, k: Key, values: Tuple): (reg: Encrypters.Register)
    requires |values| == |types|
    ensures Encrypters.Matches(ConfigOf(types), reg)
  {
    Encrypters.Register(
      ToInt64(k),
      seq(|types|, i requires 0 <= i < |types| => EncodeToProtoValue(types[i], values[i])))
  }

  lemma TupleOfSketch(types: seq<AggregatorType>, history: seq<Contribution>, k: Key)
    requires ShapedHistory(types, history) && k in SketchOf(types, history)
    ensures |SketchOf(types, history)[k]| == |types|
  {
  }

  /** The proto form tests destroyed exactly when some UNIQUE column is stored as a negative number. */
  lemma DestroyedCoding(types: seq<AggregatorType>, k: Key, values: Tuple)
    requires |values| == |types|
    ensures Encrypters.Destroyed(ConfigOf(types), ToProto(types, k, values))
       <==> exists i :: 0 <= i < |types| && types[i] == Unique && values[i] < 0
  {
    var config, reg := ConfigOf(types), ToProto(types, k, values);
    assert forall i :: 0 <= i < |types| ==>
        (config[i] == Encrypters.UNIQUE <==> types[i] == Unique)
        && (types[i] == Unique ==> reg.values[i] == values[i] + 1);
    if i :| 0 <= i < |types| && types[i] == Unique && values[i] < 0 {
      assert config[i] == Encrypters.UNIQUE && reg.values[i] <= 0;
    }
  }

  /** Some two contributions to register k disagree in a UNIQUE column, or one is negative there. */
  ghost predicate Conflicting(types: seq<AggregatorType>, history: seq<Contribution>, k: Key)
    requires ShapedHistory(types, history)
  {
    exists i :: 0 <= i < |types| && types[i] == Unique && (Disagree(history, k, i) || Negative(history, k, i))
  }

  /** The encrypter takes a register for destroyed exactly when its contributions say so. */
  lemma DestroyedByHistory(types: seq<AggregatorType>, history: seq<Contribution>, k: Key)
    requires ShapedHistory(types, history) && k in SketchOf(types, history)
    ensures |SketchOf(types, history)[k]| == |types|
    ensures Encrypters.Destroyed(ConfigOf(types), ToProto(types, k, SketchOf(types, history)[k]))
       <==> Conflicting(types, history, k)
  {
    hide SketchOf, Disagree, Negative, ConfigOf, ToProto, Encrypters.Destroyed;
    TupleOfSketch(types, history, k);
    var values := SketchOf(types, history)[k];
    forall i | 0 <= i < |types| && types[i] == Unique
      ensures values[i] < 0 <==> Disagree(history, k, i) || Negative(history, k, i)
    {
      NegativeUniqueColumn(types, history, k, i);
    }
    DestroyedCoding(types, k, values);
  }

  /** After any run of inserts and merges. */
  lemma DestroyedIff(types: seq<AggregatorType>, run: Run, k: Key)
    requires ShapedRun(types, run) && k in State(types, run)
    ensures ShapedHistory(types, Contributions(run))
    ensures Encrypters.Destroyed(ConfigOf(types), ToProto(types, k, State(types, run)[k]))
       <==> Conflicting(types, Contributions(run), k)
  {
    hide *;
    StateIsSketch(types, run);
    DestroyedByHistory(types, Contributions(run), k);
  }

  /** In every sketch object, whatever operations it went through. */
  lemma DestroyedInSketch(sketch: AnySketches.AnySketch, k: Key)
    requires sketch.Valid() && k in sketch.registers
    ensures Encrypters.Destroyed(ConfigOf(sketch.Types()), ToProto(sketch.Types(), k, sketch.registers[k]))
       <==> Conflicting(sketch.Types(), sketch.history, k)
  {
    hide SketchOf, Conflicting, ConfigOf, ToProto, Encrypters.Destroyed;
    DestroyedByHistory(sketch.Types(), sketch.history, k);
  }

  /** The proto form of these registers, in this order. */
  function ToProtos(types: seq<AggregatorType>, m: RegisterMap, keys: seq<Key>): (regs: seq<Encrypters.Register>)
    requires Shaped(types, m) && forall k :: k in keys ==> k in m
    ensures |regs| == |keys|
    ensures forall i :: 0 <= i < |keys| ==> regs[i] == ToProto(types, keys[i], m[keys[i]])
    ensures forall reg :: reg in regs ==> Encrypters.Matches(ConfigOf(types), reg)
  {
    seq(|keys|, i requires 0 <= i < |keys| => ToProto(types, keys[i], m[keys[i]]))
  }

  /** The string that stands for a key when it is hashed. */
  function KeyText(k: Key): string {
    Decimals.ToString(ToInt64(k))
  }

  /** No other key is hashed to the same point, unless as the same string. */
  ghost predicate NoCollision(c: Curves.Curve, keys: seq<Key>, k: Key) {
    forall k' :: k' in keys && c.hashToCurve(KeyText(k')) == c.hashToCurve(KeyText(k)) ==> KeyText(k') == KeyText(k)
  }

  lemma KeysToldApart(s: Encrypters.Setup, k: Key, k': Key)
    requires s.curve.hashToCurve(KeyText(k')) == s.curve.hashToCurve(KeyText(k)) ==> KeyText(k') == KeyText(k)
    ensures Decryption.HashPoint(s, ToInt64(k)) == Decryption.HashPoint(s, ToInt64(k')) <==> k == k'
  {
    Decryption.IndexesToldApart(s, ToInt64(k'), ToInt64(k));
    WordRoundTrip(k);
    WordRoundTrip(k');
  }

  /** What a reader who decrypts the encrypted registers finds under one index is the plaintext of that register. */
  lemma KeyFound(s: Encrypters.Setup, types: seq<AggregatorType>, m: RegisterMap, keys: seq<Key>,
                 strategy: Encrypters.Strategy, k: Key)
    requires s.curve.q >= 1 && Shaped(types, m) && Lists(keys, m.Keys) && k in m && NoCollision(s.curve, keys, k)
    ensures forall k :: k in keys <==> k in m
    ensures Decryption.WithIndex(
              Decryption.SketchChunks(s, ConfigOf(types), strategy, ToProtos(types, m, keys)),
              Decryption.HashPoint(s, ToInt64(k)))
         == Decryption.PlainChunks(s, ConfigOf(types), strategy, ToProto(types, k, m[k]))
  {
    hide Decryption.WithIndex, Decryption.SketchChunks, Decryption.PlainChunks, Decryption.HashPoint, ConfigOf, KeyText,
         ToInt64;
    ListedItems(keys, m.Keys);
    var regs := ToProtos(types, m, keys);
    var j :| 0 <= j < |keys| && keys[j] == k;
    forall i | 0 <= i < |regs| && i != j
      ensures Decryption.HashPoint(s, regs[i].index) != Decryption.HashPoint(s, regs[j].index)
    {
      ListedOnce(keys, m.Keys, i, j);
      var k' := keys[i];
      assert k' in keys;
      KeysToldApart(s, k, k');
    }
    Decryption.RegisterFound(s, ConfigOf(types), strategy, regs, j);
  }

  /** What Encrypt writes for these registers. */
  function Encrypted(s: Encrypters.Setup, types: seq<AggregatorType>, m: RegisterMap, keys: seq<Key>,
                     strategy: Encrypters.Strategy, pos: nat)
    : Result<seq<Byte>>
    requires s.curve.q >= 1 && Shaped(types, m) && forall k :: k in keys ==> k in m
  {
    Encrypters.Execute(s, Encrypters.SketchSteps(s, ConfigOf(types), strategy, ToProtos(types, m, keys)), pos)
  }

  /** The registers that a reader of those bytes finds under one index. */
  function Found(s: Encrypters.Setup, secret: nat, bytes: seq<Byte>, width: nat, k: Key): seq<Decryption.Chunk>
    requires s.curve.q >= 1 && width >= 1
  {
    var chunks := Decryption.ParseChunks(Decryption.DecryptAll(s.curve, secret, bytes), width);
    Decryption.WithIndex(chunks, Decryption.HashPoint(s, ToInt64(k)))
  }

  /** What was written without an error could be encrypted. */
  lemma RegisterEncryptable(s: Encrypters.Setup, types: seq<AggregatorType>, m: RegisterMap, keys: seq<Key>,
                            strategy: Encrypters.Strategy, pos: nat, k: Key)
    requires Encrypters.ValidSetup(s) && Shaped(types, m) && k in keys && forall k :: k in keys ==> k in m
    requires Encrypted(s, types, m, keys, strategy, pos).Success?
    ensures Decryption.Encryptable(s, ConfigOf(types), strategy, ToProto(types, k, m[k]))
  {
    hide Encrypters.Execute, Encrypters.SketchSteps, Decryption.Encryptable, Decryption.SketchChunks, ConfigOf,
         Decryption.Lucky, ToProto, ToProtos;
    var regs := ToProtos(types, m, keys);
    var j :| 0 <= j < |keys| && keys[j] == k;
    assert regs[j] in regs;
    Decryption.EncryptSucceedsIff(s, Encrypters.Sketch(ConfigOf(types), regs), strategy, pos);
  }

  lemma FoundInOutput(s: Encrypters.Setup, secret: nat, types: seq<AggregatorType>, m: RegisterMap, keys: seq<Key>,
                      strategy: Encrypters.Strategy, pos: nat, k: Key)
    requires Encrypters.ValidSetup(s) && Curves.KeyPair(s.curve, s.key, secret)
    requires Shaped(types, m) && Lists(keys, m.Keys) && k in m && NoCollision(s.curve, keys, k)
    ensures forall k :: k in keys <==> k in m
    ensures Encrypted(s, types, m, keys, strategy, pos).Success? ==>
              Found(s, secret, Encrypted(s, types, m, keys, strategy, pos).value, 1 + |types|, k)
              == Decryption.PlainChunks(s, ConfigOf(types), strategy, ToProto(types, k, m[k]))
  {
    hide Encrypters.Execute, Encrypters.SketchSteps, Decryption.WithIndex, Decryption.SketchChunks,
         Decryption.PlainChunks, Decryption.DecryptAll, Decryption.ParseChunks, ConfigOf, ToProto, ToProtos;
    KeyFound(s, types, m, keys, strategy, k);
    if Encrypted(s, types, m, keys, strategy, pos).Success? {
      Decryption.EncryptRoundTrip(s, secret, Encrypters.Sketch(ConfigOf(types), ToProtos(types, m, keys)),
                                  strategy, pos);
    }
  }

  /**
   * The registers of any run, encrypted under CONFLICTING_KEYS, decrypted and cut: an index is found twice
   * exactly when its contributions conflict, and once otherwise. The two copies differ unless the counter
   * 2 is clamped to 1. Without negative inputs a conflict is a disagreement.
   */
  lemma ConflictsSurviveEncryption(s: Encrypters.Setup, secret: nat, types: seq<AggregatorType>, run: Run,
                                   keys: seq<Key>, pos: nat, k: Key)
    requires Encrypters.ValidSetup(s) && Curves.KeyPair(s.curve, s.key, secret)
    requires ShapedRun(types, run) && Lists(keys, State(types, run).Keys)
    requires k in State(types, run) && NoCollision(s.curve, keys, k)
    ensures ShapedHistory(types, Contributions(run)) && forall k :: k in keys <==> k in State(types, run)
    ensures var output := Encrypted(s, types, State(types, run), keys, Encrypters.CONFLICTING_KEYS, pos);
            var history := Contributions(run);
            output.Success? ==>
              var found := Found(s, secret, output.value, 1 + |types|, k);
              && |found| == (if Conflicting(types, history, k) then 2 else 1)
              && (|found| == 2 ==>
                    && found[0].values == Encrypters.Repeat(Encrypters.UnitPoint(s), |types|)
                    && (s.maxCounterValue >= 1 ==>
                          found[1].values == Encrypters.Repeat(2 * Encrypters.UnitPoint(s) % s.curve.q, |types|))
                    && (found[0].values != found[1].values <==> s.maxCounterValue >= 1))
              && ((forall i :: 0 <= i < |types| && types[i] == Unique ==> !Negative(history, k, i)) ==>
                    (|found| == 2
                     <==> exists i :: 0 <= i < |types| && types[i] == Unique && Disagree(history, k, i)))
  {
    hide State, Contributions, Disagree, Negative, Encrypted, Found, Encrypters.Destroyed, Decryption.PlainChunks,
         ConfigOf, ToProto;
    var strategy := Encrypters.CONFLICTING_KEYS;
    DestroyedIff(types, run, k);
    FoundInOutput(s, secret, types, State(types, run), keys, strategy, pos, k);
    if Encrypted(s, types, State(types, run), keys, strategy, pos).Success?
       && Conflicting(types, Contributions(run), k) {
      RegisterEncryptable(s, types, State(types, run), keys, strategy, pos, k);
      Decryption.ConflictIsVisible(s, ConfigOf(types), ToProto(types, k, State(types, run)[k]));
    }
  }

  function FlagPoint(s: Encrypters.Setup): nat {
    s.curve.hashToCurve(Encrypters.DESTROYED_REGISTER_KEY)
  }

  /** The proto value of this column is not hashed to the flag. */
  predicate UnlikeFlag(s: Encrypters.Setup, types: seq<AggregatorType>, m: RegisterMap, k: Key, i: nat)
    requires Shaped(types, m) && k in m && i < |types|
  {
    Decryption.HashPoint(s, EncodeToProtoValue(types[i], m[k][i])) != FlagPoint(s)
  }

  /** The plaintext of a register under FLAGGED_KEY. */
  lemma FlaggedPlaintext(s: Encrypters.Setup, types: seq<AggregatorType>, m: RegisterMap, k: Key, i: nat)
    requires s.curve.q >= 1 && Shaped(types, m) && k in m
    requires i < |types| && types[i] == Unique && UnlikeFlag(s, types, m, k, i)
    ensures var reg := ToProto(types, k, m[k]);
            var chunks := Decryption.PlainChunks(s, ConfigOf(types), Encrypters.FLAGGED_KEY, reg);
            && |chunks| == 1
            && |chunks[0].values| == |types|
            && if Encrypters.Destroyed(ConfigOf(types), reg) then
                 chunks[0].values == Encrypters.Repeat(FlagPoint(s), |types|)
               else
                 chunks[0].values[i] != FlagPoint(s)
  {
    hide Encrypters.Destroyed;
  }

  /**
   * The same under FLAGGED_KEY: every index is found once. Its values are all the flag if its contributions
   * conflict. Otherwise a UNIQUE column shows it, unless the value stored there is hashed to the flag.
   */
  lemma FlagsSurviveEncryption(s: Encrypters.Setup, secret: nat, types: seq<AggregatorType>, run: Run,
                               keys: seq<Key>, pos: nat, k: Key, i: nat)
    requires Encrypters.ValidSetup(s) && Curves.KeyPair(s.curve, s.key, secret)
    requires ShapedRun(types, run) && Lists(keys, State(types, run).Keys)
    requires k in State(types, run) && NoCollision(s.curve, keys, k)
    requires i < |types| && types[i] == Unique && UnlikeFlag(s, types, State(types, run), k, i)
    ensures ShapedHistory(types, Contributions(run)) && forall k :: k in keys <==> k in State(types, run)
    ensures var output := Encrypted(s, types, State(types, run), keys, Encrypters.FLAGGED_KEY, pos);
            output.Success? ==>
              var found := Found(s, secret, output.value, 1 + |types|, k);
              && |found| == 1
              && if Conflicting(types, Contributions(run), k) then
                   found[0].values == Encrypters.Repeat(FlagPoint(s), |types|)
                 else
                   |found[0].values| == |types| && found[0].values[i] != FlagPoint(s)
  {
    hide *;
    Encrypters.CapFits(s);
    DestroyedIff(types, run, k);
    FlaggedPlaintext(s, types, State(types, run), k, i);
    FoundInOutput(s, secret, types, State(types, run), keys, Encrypters.FLAGGED_KEY, pos, k);
  }

  // Registers without a conflict.

  lemma ColumnCoding(types: seq<AggregatorType>, k: Key, values: Tuple, i: nat)
    requires |values| == |types| && i < |types|
    ensures ConfigOf(types)[i] == if types[i] == Sum then Encrypters.SUM else Encrypters.UNIQUE
    ensures ToProto(types, k, values).values[i] == if types[i] == Sum then values[i] else values[i] + 1
  {
  }

  /** Without a conflict a UNIQUE column holds the value that all contributions agree on. */
  lemma AgreedValue(types: seq<AggregatorType>, history: seq<Contribution>, k: Key, i: nat, h: nat)
    requires ShapedHistory(types, history) && k in SketchOf(types, history) && !Conflicting(types, history, k)
    requires i < |types| && types[i] == Unique && h < |history| && history[h].index == k
    ensures |SketchOf(types, history)[k]| == |types| && SketchOf(types, history)[k][i] == history[h].values[i]
  {
    hide SketchOf, Column;
    var column := Column(history, k, i);
    TupleOfSketch(types, history, k);
    Registers.SketchMeaning(types, history, k, i);
    UnanimousIsNoConflict(types, history, k, i);
    ColumnElements(types, history, k, i);
    assert history[h].values[i] in column;
  }

  /** A SUM column holds the total of what was sent to it. */
  lemma SummedValue(types: seq<AggregatorType>, history: seq<Contribution>, k: Key, i: nat)
    requires ShapedHistory(types, history) && k in SketchOf(types, history)
    requires i < |types| && types[i] == Sum
    ensures |SketchOf(types, history)[k]| == |types|
    ensures SketchOf(types, history)[k][i] == Total(Column(history, k, i))
  {
    hide SketchOf, Column, Total;
    TupleOfSketch(types, history, k);
    Registers.SketchMeaning(types, history, k, i);
  }

  /** What the contributions to a register leave in one column of its plaintext. */
  ghost predicate ShowsColumn(s: Encrypters.Setup, types: seq<AggregatorType>, history: seq<Contribution>, k: Key,
                              i: nat, point: nat)
    requires s.curve.q >= 1 && ShapedHistory(types, history) && i < |types|
  {
    match types[i]
    case Sum =>
      var total := Total(Column(history, k, i));
      total > 0 && point == Encrypters.Clamp(total, Encrypters.Cap(s)) * Encrypters.UnitPoint(s) % s.curve.q
    case Unique =>
      forall h :: 0 <= h < |history| && history[h].index == k ==>
                    point == Decryption.HashPoint(s, history[h].values[i] + 1)
  }

  lemma PlaintextShows(s: Encrypters.Setup, types: seq<AggregatorType>, history: seq<Contribution>, k: Key,
                       strategy: Encrypters.Strategy)
    requires s.curve.q >= 1 && ShapedHistory(types, history) && k in SketchOf(types, history)
    requires !Conflicting(types, history, k)
    ensures |SketchOf(types, history)[k]| == |types|
    ensures var config, reg := ConfigOf(types), ToProto(types, k, SketchOf(types, history)[k]);
            Decryption.Encryptable(s, config, strategy, reg) ==>
              var chunks := Decryption.PlainChunks(s, config, strategy, reg);
              && |chunks| == 1
              && |chunks[0].values| == |types|
              && forall i :: 0 <= i < |types| ==> ShowsColumn(s, types, history, k, i, chunks[0].values[i])
  {
    hide SketchOf, Column, Total, Conflicting, ConfigOf, ToProto, Encrypters.Destroyed, Decryption.HashPoint;
    DestroyedByHistory(types, history, k);
    var values := SketchOf(types, history)[k];
    var config, reg := ConfigOf(types), ToProto(types, k, values);
    if Decryption.Encryptable(s, config, strategy, reg) {
      var chunks := Decryption.PlainChunks(s, config, strategy, reg);
      forall i | 0 <= i < |types|
        ensures ShowsColumn(s, types, history, k, i, chunks[0].values[i])
      {
        ColumnCoding(types, k, values, i);
        assert Decryption.EncryptableValue(s, config[i], reg.values[i]);
        if types[i] == Sum {
          SummedValue(types, history, k, i);
        } else {
          forall h | 0 <= h < |history| && history[h].index == k
            ensures values[i] == history[h].values[i]
          {
            AgreedValue(types, history, k, i, h);
          }
        }
      }
    }
  }

  /**
   * A register without a conflict, encrypted under any strategy and decrypted, is found once. A SUM column shows
   * its clamped total, which is positive, as a multiple of the unit point, and a UNIQUE column the value
   * that the contributions agree on.
   */
  lemma ValuesSurviveEncryption(s: Encrypters.Setup, secret: nat, types: seq<AggregatorType>, run: Run,
                                keys: seq<Key>, strategy: Encrypters.Strategy, pos: nat, k: Key)
    requires Encrypters.ValidSetup(s) && Curves.KeyPair(s.curve, s.key, secret)
    requires ShapedRun(types, run) && Lists(keys, State(types, run).Keys)
    requires k in State(types, run) && NoCollision(s.curve, keys, k)
    ensures ShapedHistory(types, Contributions(run)) && forall k :: k in keys <==> k in State(types, run)
    ensures var output := Encrypted(s, types, State(types, run), keys, strategy, pos);
            output.Success? && !Conflicting(types, Contributions(run), k) ==>
              var found := Found(s, secret, output.value, 1 + |types|, k);
              && |found| == 1
              && |found[0].values| == |types|
              && forall i :: 0 <= i < |types| ==>
                               ShowsColumn(s, types, Contributions(run), k, i, found[0].values[i])
  {
    hide *;
    Encrypters.CapFits(s);
    StateIsSketch(types, run);
    FoundInOutput(s, secret, types, State(types, run), keys, strategy, pos, k);
    if Encrypted(s, types, State(types, run), keys, strategy, pos).Success?
       && !Conflicting(types, Contributions(run), k) {
      RegisterEncryptable(s, types, State(types, run), keys, strategy, pos, k);
      PlaintextShows(s, types, Contributions(run), k, strategy);
    }
  }

  /** Which registers can be encrypted, in terms of what was sent to them. */
  ghost predicate CanBeEncrypted(s: Encrypters.Setup, types: seq<AggregatorType>, history: seq<Contribution>, k: Key,
                                 strategy: Encrypters.Strategy)
    requires ShapedHistory(types, history)
  {
    if Conflicting(types, history, k) then
      strategy == Encrypters.FLAGGED_KEY || (strategy == Encrypters.CONFLICTING_KEYS && Encrypters.Cap(s) != 0)
    else
      forall i :: 0 <= i < |types| && types[i] == Sum ==> Total(Column(history, k, i)) > 0 && Encrypters.Cap(s) != 0
  }

  lemma EncryptableByHistory(s: Encrypters.Setup, types: seq<AggregatorType>, history: seq<Contribution>, k: Key,
                             strategy: Encrypters.Strategy)
    requires ShapedHistory(types, history) && k in SketchOf(types, history)
    ensures |SketchOf(types, history)[k]| == |types|
    ensures Decryption.Encryptable(s, ConfigOf(types), strategy, ToProto(types, k, SketchOf(types, history)[k]))
       <==> CanBeEncrypted(s, types, history, k, strategy)
  {
    hide SketchOf, Column, Total, Conflicting, ConfigOf, ToProto, Encrypters.Destroyed, Encrypters.Cap;
    DestroyedByHistory(types, history, k);
    var values := SketchOf(types, history)[k];
    var config, reg := ConfigOf(types), ToProto(types, k, values);
    forall i | 0 <= i < |types|
      ensures Decryption.EncryptableValue(s, config[i], reg.values[i])
         <==> (types[i] == Sum ==> Total(Column(history, k, i)) > 0 && Encrypters.Cap(s) != 0)
    {
      ColumnCoding(types, k, values, i);
      if types[i] == Sum {
        SummedValue(types, history, k, i);
      }
    }
  }

  /** Bad luck apart, the registers of a run are encrypted if and only if each of them can be. */
  lemma EncryptsIff(s: Encrypters.Setup, types: seq<AggregatorType>, run: Run, keys: seq<Key>,
                    strategy: Encrypters.Strategy, pos: nat)
    requires Encrypters.ValidSetup(s) && ShapedRun(types, run) && Lists(keys, State(types, run).Keys)
    ensures ShapedHistory(types, Contributions(run)) && forall k :: k in keys <==> k in State(types, run)
    ensures Encrypted(s, types, State(types, run), keys, strategy, pos).Success?
       <==> && (forall k :: k in State(types, run) ==> CanBeEncrypted(s, types, Contributions(run), k, strategy))
            && var regs := ToProtos(types, State(types, run), keys);
               Decryption.Lucky(s, Decryption.Flatten(Decryption.SketchChunks(s, ConfigOf(types), strategy, regs)), pos)
  {
    hide SketchOf, State, Contributions, CanBeEncrypted, ConfigOf, ToProto, Decryption.Encryptable, Decryption.Lucky,
         Decryption.Flatten, Decryption.SketchChunks, Encrypters.Execute, Encrypters.SketchSteps;
    var m := State(types, run);
    StateIsSketch(types, run);
    ListedItems(keys, m.Keys);
    var regs := ToProtos(types, m, keys);
    Decryption.EncryptSucceedsIff(s, Encrypters.Sketch(ConfigOf(types), regs), strategy, pos);
    forall k | k in m
      ensures ToProto(types, k, m[k]) in regs
      ensures Decryption.Encryptable(s, ConfigOf(types), strategy, ToProto(types, k, m[k]))
         <==> CanBeEncrypted(s, types, Contributions(run), k, strategy)
    {
      var j :| 0 <= j < |keys| && keys[j] == k;
      assert regs[j] == ToProto(types, k, m[k]);
      EncryptableByHistory(s, types, Contributions(run), k, strategy);
    }
  }
}
