/** Reading an encrypted sketch back: cut, decrypt, and group into registers. */
module Decryption {
  import opened Arithmetic
  import opened Curves
  import opened Decimals
  import opened Encrypters
  import opened Results
  import opened Sampling

  /** One encrypted register after decryption: the index point and the value points. */
  datatype Chunk = Chunk(index: nat, values: seq<nat>)

  /** Cutting every 66 bytes. */
  function DecryptAll(c: Curve, secret: nat, bytes: seq<Byte>): seq<nat>
    requires c.q >= 1
    decreases |bytes|
  {
    if |bytes| < BYTES_PER_CIPHERTEXT then []
    else [Decrypt(c, secret, bytes[..BYTES_PER_CIPHERTEXT])]
         + DecryptAll(c, secret, bytes[BYTES_PER_CIPHERTEXT..])
  }

  /** Cutting every `width` points. */
  function ParseChunks(points: seq<nat>, width: nat): seq<Chunk>
    requires width >= 1
    decreases |points|
  {
    if |points| < width then []
    else [Chunk(points[0], points[1..width])] + ParseChunks(points[width..], width)
  }

  function Flatten(chunks: seq<Chunk>): seq<nat> {
    if |chunks| == 0 then [] else [chunks[0].index] + chunks[0].values + Flatten(chunks[1..])
  }

  lemma {:induction false} ParseFlattened(chunks: seq<Chunk>, width: nat)
    requires width >= 1 && forall i :: 0 <= i < |chunks| ==> |chunks[i].values| == width - 1
    ensures |Flatten(chunks)| == width * |chunks|
    ensures ParseChunks(Flatten(chunks), width) == chunks
    decreases |chunks|
  {
    if |chunks| > 0 {
      ParseFlattened(chunks[1..], width);
      Distribute(width, 1, |chunks| - 1);
      var head, points := [chunks[0].index] + chunks[0].values, Flatten(chunks);
      assert points[..width] == head && points[width..] == Flatten(chunks[1..]);
      assert points[1..width] == chunks[0].values;
    }
  }

  lemma {:induction false} FlattenAppends(a: seq<Chunk>, b: seq<Chunk>)
    ensures Flatten(a + b) == Flatten(a) + Flatten(b)
    decreases |a|
  {
    if |a| == 0 {
      assert a + b == b;
    } else {
      assert (a + b)[1..] == a[1..] + b;
      FlattenAppends(a[1..], b);
    }
  }

  predicate AllEmit(steps: seq<Step>) {
    forall i :: 0 <= i < |steps| ==> steps[i].Emit?
  }

  function Points(steps: seq<Step>): (r: seq<nat>)
    requires AllEmit(steps)
    ensures |r| == |steps|
  {
    seq(|steps|, i requires 0 <= i < |steps| => steps[i].point)
  }

  /** No step stops and no ciphertext hits the point at infinity. */
  ghost predicate Writable(s: Setup, steps: seq<Step>, pos: nat)
    requires s.curve.q >= 1
  {
    forall i :: 0 <= i < |steps| ==>
      steps[i].Emit? && Curves.Encrypt(s.curve, s.key, steps[i].point, s.random(pos + i)).Success?
  }

  lemma WritableTail(s: Setup, steps: seq<Step>, pos: nat)
    requires s.curve.q >= 1 && |steps| > 0
    ensures Writable(s, steps, pos)
       <==> Writable(s, steps[..1], pos) && Writable(s, steps[1..], pos + 1)
  {
  }

  lemma {:induction false} ExecuteSucceeds(s: Setup, steps: seq<Step>, pos: nat)
    requires s.curve.q >= 1
    ensures Execute(s, steps, pos).Success? <==> Writable(s, steps, pos)
    decreases |steps|
  {
    if |steps| > 0 {
      ExecuteSucceeds(s, steps[1..], pos + 1);
      WritableTail(s, steps, pos);
      assert steps[..1] == [steps[0]];
    }
  }

  ghost predicate PointsBelow(steps: seq<Step>, q: nat) {
    forall i :: 0 <= i < |steps| && steps[i].Emit? ==> steps[i].point < q
  }

  lemma ExecuteFirst(s: Setup, steps: seq<Step>, pos: nat)
    requires ValidSetup(s) && |steps| > 0 && PointsBelow(steps, s.curve.q) && Execute(s, steps, pos).Success?
    ensures steps[0].Emit? && steps[0].point < s.curve.q && PointsBelow(steps[1..], s.curve.q)
    ensures Curves.Encrypt(s.curve, s.key, steps[0].point, s.random(pos)).Success?
    ensures Execute(s, steps[1..], pos + 1).Success?
    ensures Execute(s, steps, pos).value
         == Curves.Encrypt(s.curve, s.key, steps[0].point, s.random(pos)).value + Execute(s, steps[1..], pos + 1).value
  {
  }

  lemma DecryptFirst(c: Curve, secret: nat, head: seq<Byte>, tail: seq<Byte>)
    requires c.q >= 1 && |head| == BYTES_PER_CIPHERTEXT
    ensures DecryptAll(c, secret, head + tail) == [Decrypt(c, secret, head)] + DecryptAll(c, secret, tail)
  {
  }

  lemma PointsFirst(steps: seq<Step>)
    requires |steps| > 0 && steps[0].Emit? && AllEmit(steps[1..])
    ensures AllEmit(steps) && Points(steps) == [steps[0].point] + Points(steps[1..])
  {
  }

  /** What was written is 66 bytes a step and decrypts to the emitted points in order. */
  lemma {:induction false} ExecuteDecrypts(s: Setup, secret: nat, steps: seq<Step>, pos: nat)
    requires ValidSetup(s) && KeyPair(s.curve, s.key, secret) && PointsBelow(steps, s.curve.q)
    requires Execute(s, steps, pos).Success?
    ensures AllEmit(steps)
    ensures var bytes := Execute(s, steps, pos).value;
            |bytes| == BYTES_PER_CIPHERTEXT * |steps| && DecryptAll(s.curve, secret, bytes) == Points(steps)
    decreases |steps|
  {
    if |steps| > 0 {
      ExecuteFirst(s, steps, pos);
      ExecuteDecrypts(s, secret, steps[1..], pos + 1);
      var head := Curves.Encrypt(s.curve, s.key, steps[0].point, s.random(pos)).value;
      hide *;
      EncryptDecrypts(s.curve, s.key, secret, steps[0].point, s.random(pos));
      DecryptFirst(s.curve, secret, head, Execute(s, steps[1..], pos + 1).value);
      PointsFirst(steps);
    }
  }

  // What the steps of a register mean, without reference to steps.

  function HashPoint(s: Setup, n: int): nat {
    s.curve.hashToCurve(ToString(n))
  }

  function CounterPointOf(s: Setup, n: nat): nat
    requires s.curve.q >= 1
  {
    Multiple(Clamp(n, Cap(s)), UnitPoint(s), s.curve.q)
  }

  function ValuePoint(s: Setup, t: ProtoAggregator, value: int): nat
    requires s.curve.q >= 1
  {
    if t == SUM && value > 0 then CounterPointOf(s, value) else HashPoint(s, value)
  }

  /** The plaintext registers: two with one index for a conflict, otherwise one. */
  function PlainChunks(s: Setup, config: seq<ProtoAggregator>, strategy: Strategy, reg: Register): (r: seq<Chunk>)
    requires s.curve.q >= 1 && Matches(config, reg)
    ensures forall i :: 0 <= i < |r| ==> |r[i].values| == |config|
    ensures |r| == if Destroyed(config, reg) && strategy == CONFLICTING_KEYS then 2 else 1
  {
    var index, n := HashPoint(s, reg.index), |config|;
    if !Destroyed(config, reg) then
      [Chunk(index, seq(n, i requires 0 <= i < n => ValuePoint(s, config[i], reg.values[i])))]
    else if strategy == CONFLICTING_KEYS then
      [Chunk(index, Repeat(CounterPointOf(s, 1), n)), Chunk(index, Repeat(CounterPointOf(s, 2), n))]
    else [Chunk(index, Repeat(s.curve.hashToCurve(DESTROYED_REGISTER_KEY), n))]
  }

  predicate EncryptableValue(s: Setup, t: ProtoAggregator, value: int) {
    t == UNIQUE || (t == SUM && value > 0 && Cap(s) != 0)
  }

  /** Which registers can be encrypted at all. */
  predicate Encryptable(s: Setup, config: seq<ProtoAggregator>, strategy: Strategy, reg: Register)
    requires Matches(config, reg)
  {
    if Destroyed(config, reg) then
      strategy == FLAGGED_KEY || (strategy == CONFLICTING_KEYS && Cap(s) != 0)
    else
      forall i :: 0 <= i < |config| ==> EncryptableValue(s, config[i], reg.values[i])
  }

  lemma ValueMeaning(s: Setup, t: ProtoAggregator, value: int)
    requires s.curve.q >= 1
    ensures ValueStep(s, t, value).Emit? <==> EncryptableValue(s, t, value)
    ensures ValueStep(s, t, value).Emit? ==> ValueStep(s, t, value).point == ValuePoint(s, t, value)
  {
  }

  /** A value that cannot be encrypted is the caller's fault, unless the cap has wrapped to 0. */
  lemma ValueErrors(s: Setup, t: ProtoAggregator, value: int)
    requires s.curve.q >= 1
    ensures ValueStep(s, t, value).Stop? ==>
              ValueStep(s, t, value).error == if t == SUM && value > 0 then Internal else InvalidArgument
  {
  }

  lemma ValuesMeaning(s: Setup, config: seq<ProtoAggregator>, values: seq<int>)
    requires s.curve.q >= 1 && |values| == |config|
    ensures AllEmit(ValueSteps(s, config, values))
       <==> forall i :: 0 <= i < |config| ==> EncryptableValue(s, config[i], values[i])
    ensures AllEmit(ValueSteps(s, config, values)) ==>
              Points(ValueSteps(s, config, values))
              == seq(|config|, i requires 0 <= i < |config| => ValuePoint(s, config[i], values[i]))
  {
    hide ValueStep, EncryptableValue, ValuePoint;
    var steps := ValueSteps(s, config, values);
    forall i | 0 <= i < |config|
      ensures steps[i].Emit? <==> EncryptableValue(s, config[i], values[i])
      ensures steps[i].Emit? ==> steps[i].point == ValuePoint(s, config[i], values[i])
    {
      ValueMeaning(s, config[i], values[i]);
    }
  }

  lemma OneChunk(chunk: Chunk)
    ensures Flatten([chunk]) == [chunk.index] + chunk.values
  {
  }

  lemma EmitSequence(a: seq<Step>, b: seq<Step>)
    ensures AllEmit(a + b) <==> AllEmit(a) && AllEmit(b)
    ensures AllEmit(a + b) ==> Points(a + b) == Points(a) + Points(b)
  {
    if AllEmit(a + b) {
      assert forall i :: 0 <= i < |a| ==> a[i] == (a + b)[i];
      assert forall i :: 0 <= i < |b| ==> b[i] == (a + b)[|a| + i];
    }
  }

  lemma PlainRegisterMeaning(s: Setup, config: seq<ProtoAggregator>, reg: Register)
    requires s.curve.q >= 1 && Matches(config, reg) && !Destroyed(config, reg)
    ensures AllEmit(PlainSteps(s, config, reg)) <==> Encryptable(s, config, FLAGGED_KEY, reg)
    ensures AllEmit(PlainSteps(s, config, reg)) ==>
              Points(PlainSteps(s, config, reg)) == Flatten(PlainChunks(s, config, FLAGGED_KEY, reg))
  {
    hide ValueSteps, ValueStep, ValuePoint, EncryptableValue, Flatten;
    ValuesMeaning(s, config, reg.values);
    EmitSequence([HashStep(s, reg.index)], ValueSteps(s, config, reg.values));
    OneChunk(PlainChunks(s, config, FLAGGED_KEY, reg)[0]);
    assert Points([HashStep(s, reg.index)]) == [HashPoint(s, reg.index)];
  }

  lemma SameValueMeaning(s: Setup, index: int, n: nat, counter: nat)
    requires s.curve.q >= 1 && counter >= 1
    ensures AllEmit(SameValueSteps(s, index, n, counter)) <==> Cap(s) != 0
    ensures Cap(s) != 0 ==>
              Points(SameValueSteps(s, index, n, counter))
              == Flatten([Chunk(HashPoint(s, index), Repeat(CounterPointOf(s, counter), n))])
  {
    OneChunk(Chunk(HashPoint(s, index), Repeat(CounterPointOf(s, counter), n)));
    if Cap(s) == 0 {
      assert SameValueSteps(s, index, n, counter)[1].Stop?;
    }
  }

  lemma DestroyedRegisterMeaning(s: Setup, config: seq<ProtoAggregator>, strategy: Strategy, reg: Register)
    requires s.curve.q >= 1 && Matches(config, reg) && Destroyed(config, reg)
    ensures AllEmit(DestroyedSteps(s, strategy, reg)) <==> Encryptable(s, config, strategy, reg)
    ensures AllEmit(DestroyedSteps(s, strategy, reg)) ==>
              Points(DestroyedSteps(s, strategy, reg)) == Flatten(PlainChunks(s, config, strategy, reg))
  {
    match strategy
    case UNSPECIFIED =>
      assert DestroyedSteps(s, strategy, reg)[0].Stop?;
    case FLAGGED_KEY =>
      OneChunk(PlainChunks(s, config, strategy, reg)[0]);
    case CONFLICTING_KEYS =>
      var n := |config|;
      var one, two := SameValueSteps(s, reg.index, n, 1), SameValueSteps(s, reg.index, n, 2);
      SameValueMeaning(s, reg.index, n, 1);
      SameValueMeaning(s, reg.index, n, 2);
      EmitSequence(one, two);
      var chunks := PlainChunks(s, config, strategy, reg);
      FlattenAppends([chunks[0]], [chunks[1]]);
      assert chunks == [chunks[0]] + [chunks[1]];
  }

  lemma RegisterMeaning(s: Setup, config: seq<ProtoAggregator>, strategy: Strategy, reg: Register)
    requires s.curve.q >= 1 && Matches(config, reg)
    ensures AllEmit(RegisterSteps(s, config, strategy, reg)) <==> Encryptable(s, config, strategy, reg)
    ensures AllEmit(RegisterSteps(s, config, strategy, reg)) ==>
              Points(RegisterSteps(s, config, strategy, reg)) == Flatten(PlainChunks(s, config, strategy, reg))
  {
    if Destroyed(config, reg) {
      DestroyedRegisterMeaning(s, config, strategy, reg);
    } else {
      PlainRegisterMeaning(s, config, reg);
    }
  }

  function SketchChunks(s: Setup, config: seq<ProtoAggregator>, strategy: Strategy, regs: seq<Register>)
    : (r: seq<Chunk>)
    requires s.curve.q >= 1 && forall reg :: reg in regs ==> Matches(config, reg)
    ensures forall i :: 0 <= i < |r| ==> |r[i].values| == |config|
  {
    if |regs| == 0 then []
    else
      var n := |regs| - 1;
      SketchChunks(s, config, strategy, regs[..n]) + PlainChunks(s, config, strategy, regs[n])
  }

  lemma {:induction false} SketchMeaning(
      s: Setup, config: seq<ProtoAggregator>, strategy: Strategy, regs: seq<Register>)
    requires s.curve.q >= 1 && forall reg :: reg in regs ==> Matches(config, reg)
    ensures AllEmit(SketchSteps(s, config, strategy, regs))
       <==> forall reg :: reg in regs ==> Encryptable(s, config, strategy, reg)
    ensures AllEmit(SketchSteps(s, config, strategy, regs)) ==>
              Points(SketchSteps(s, config, strategy, regs)) == Flatten(SketchChunks(s, config, strategy, regs))
    decreases |regs|
  {
    if |regs| > 0 {
      var n := |regs| - 1;
      assert regs == regs[..n] + [regs[n]];
      SketchMeaning(s, config, strategy, regs[..n]);
      RegisterMeaning(s, config, strategy, regs[n]);
      EmitSequence(SketchSteps(s, config, strategy, regs[..n]), RegisterSteps(s, config, strategy, regs[n]));
      FlattenAppends(SketchChunks(s, config, strategy, regs[..n]), PlainChunks(s, config, strategy, regs[n]));
    }
  }

  lemma RegisterPointsBelow(s: Setup, config: seq<ProtoAggregator>, strategy: Strategy, reg: Register)
    requires ValidSetup(s) && Matches(config, reg)
    ensures PointsBelow(RegisterSteps(s, config, strategy, reg), s.curve.q)
  {
  }

  lemma {:induction false} SketchPointsBelow(
      s: Setup, config: seq<ProtoAggregator>, strategy: Strategy, regs: seq<Register>)
    requires ValidSetup(s) && forall reg :: reg in regs ==> Matches(config, reg)
    ensures PointsBelow(SketchSteps(s, config, strategy, regs), s.curve.q)
    decreases |regs|
  {
    if |regs| > 0 {
      var n := |regs| - 1;
      SketchPointsBelow(s, config, strategy, regs[..n]);
      RegisterPointsBelow(s, config, strategy, regs[n]);
    }
  }

  /** How many registers a reader finds. */
  function ChunkCount(config: seq<ProtoAggregator>, strategy: Strategy, regs: seq<Register>): nat
    requires forall reg :: reg in regs ==> Matches(config, reg)
  {
    if |regs| == 0 then 0
    else
      var n := |regs| - 1;
      ChunkCount(config, strategy, regs[..n])
      + if Destroyed(config, regs[n]) && strategy == CONFLICTING_KEYS then 2 else 1
  }

  lemma {:induction false} ChunksCounted(
      s: Setup, config: seq<ProtoAggregator>, strategy: Strategy, regs: seq<Register>)
    requires s.curve.q >= 1 && forall reg :: reg in regs ==> Matches(config, reg)
    ensures |SketchChunks(s, config, strategy, regs)| == ChunkCount(config, strategy, regs)
    decreases |regs|
  {
    if |regs| > 0 {
      ChunksCounted(s, config, strategy, regs[..|regs| - 1]);
    }
  }

  /**
   * Reading back what Encrypt returned: cutting it into ciphertexts and those into registers
   * of one index and one point a value gives the plaintext registers in order.
   */
  lemma EncryptRoundTrip(s: Setup, secret: nat, sketch: Sketch, strategy: Strategy, pos: nat)
    requires ValidSetup(s) && KeyPair(s.curve, s.key, secret)
    requires forall reg :: reg in sketch.registers ==> Matches(sketch.config, reg)
    requires Execute(s, SketchSteps(s, sketch.config, strategy, sketch.registers), pos).Success?
    ensures var bytes := Execute(s, SketchSteps(s, sketch.config, strategy, sketch.registers), pos).value;
            var width := 1 + |sketch.config|;
            && |bytes| == BYTES_PER_CIPHERTEXT * (width * ChunkCount(sketch.config, strategy, sketch.registers))
            && ParseChunks(DecryptAll(s.curve, secret, bytes), width)
               == SketchChunks(s, sketch.config, strategy, sketch.registers)
  {
    var config, regs := sketch.config, sketch.registers;
    var steps, chunks := SketchSteps(s, config, strategy, regs), SketchChunks(s, config, strategy, regs);
    SketchPointsBelow(s, config, strategy, regs);
    ExecuteDecrypts(s, secret, steps, pos);
    SketchMeaning(s, config, strategy, regs);
    ParseFlattened(chunks, 1 + |config|);
    ChunksCounted(s, config, strategy, regs);
  }

  /** Both halves of the ciphertext are points other than infinity. */
  predicate LuckyFor(s: Setup, point: nat, r: nat)
    requires s.curve.q >= 1
  {
    Multiple(r, s.key.g, s.curve.q) != 0 && Reduce(point + r * s.key.y, s.curve.q) != 0
  }

  /** The drawn randomness keeps both halves of every ciphertext away from the point at infinity. */
  ghost predicate Lucky(s: Setup, points: seq<nat>, pos: nat)
    requires s.curve.q >= 1
  {
    forall i :: 0 <= i < |points| ==> LuckyFor(s, points[i], s.random(pos + i))
  }

  lemma EncryptWhenLucky(s: Setup, point: nat, r: nat)
    requires s.curve.q >= 1
    ensures Curves.Encrypt(s.curve, s.key, point, r).Success? <==> LuckyFor(s, point, r)
  {
  }

  lemma WritableIffLucky(s: Setup, steps: seq<Step>, pos: nat)
    requires s.curve.q >= 1
    ensures Writable(s, steps, pos) <==> AllEmit(steps) && Lucky(s, Points(steps), pos)
  {
    hide Curves.Encrypt, LuckyFor;
    forall i | 0 <= i < |steps| && steps[i].Emit?
      ensures Curves.Encrypt(s.curve, s.key, steps[i].point, s.random(pos + i)).Success?
         <==> LuckyFor(s, steps[i].point, s.random(pos + i))
    {
      EncryptWhenLucky(s, steps[i].point, s.random(pos + i));
    }
    if AllEmit(steps) {
      var points := Points(steps);
      assert forall i :: 0 <= i < |steps| ==> points[i] == steps[i].point;
    }
  }

  /** Encrypt succeeds exactly when every register can be encrypted and the randomness is lucky. */
  lemma EncryptSucceedsIff(s: Setup, sketch: Sketch, strategy: Strategy, pos: nat)
    requires ValidSetup(s)
    requires forall reg :: reg in sketch.registers ==> Matches(sketch.config, reg)
    ensures Execute(s, SketchSteps(s, sketch.config, strategy, sketch.registers), pos).Success?
       <==> (forall reg :: reg in sketch.registers ==> Encryptable(s, sketch.config, strategy, reg))
            && Lucky(s, Flatten(SketchChunks(s, sketch.config, strategy, sketch.registers)), pos)
  {
    hide SketchSteps, SketchChunks, Execute, Encryptable, Lucky, Writable, Flatten;
    var steps := SketchSteps(s, sketch.config, strategy, sketch.registers);
    ExecuteSucceeds(s, steps, pos);
    SketchMeaning(s, sketch.config, strategy, sketch.registers);
    WritableIffLucky(s, steps, pos);
  }

  // What a reader can tell apart.

  /** Clamped counters, and nothing else, can be told apart. */
  lemma CountersToldApart(s: Setup, m: nat, n: nat)
    requires ValidSetup(s)
    ensures CounterPointOf(s, m) == CounterPointOf(s, n) <==> Clamp(m, Cap(s)) == Clamp(n, Cap(s))
  {
    CapFits(s);
    var a, b := Clamp(m, Cap(s)), Clamp(n, Cap(s));
    if a < b {
      MultiplesDiffer(s.curve, a, b, UnitPoint(s));
    } else if b < a {
      MultiplesDiffer(s.curve, b, a, UnitPoint(s));
    }
  }

  /** Clamping to max_counter_value itself, as the header says, gives the same point for just the counters up to it. */
  lemma HeaderClamping(s: Setup, n: nat)
    requires ValidSetup(s)
    ensures CounterPointOf(s, n) == Multiple(Clamp(n, s.maxCounterValue), UnitPoint(s), s.curve.q)
       <==> if Cap(s) == 0 then n == 0 else n <= s.maxCounterValue
  {
    CapFits(s);
    var a, b := Clamp(n, Cap(s)), Clamp(n, s.maxCounterValue);
    if a < b {
      MultiplesDiffer(s.curve, a, b, UnitPoint(s));
    } else if b < a {
      MultiplesDiffer(s.curve, b, a, UnitPoint(s));
    }
  }

  /** The two registers of a conflict share their index; their values differ exactly when 2 is not clamped to 1. */
  lemma ConflictIsVisible(s: Setup, config: seq<ProtoAggregator>, reg: Register)
    requires ValidSetup(s) && Matches(config, reg) && Destroyed(config, reg)
    requires Encryptable(s, config, CONFLICTING_KEYS, reg)
    ensures var chunks := PlainChunks(s, config, CONFLICTING_KEYS, reg);
            && |chunks| == 2 && chunks[0].index == chunks[1].index
            && chunks[0].values == Repeat(UnitPoint(s), |config|)
            && (s.maxCounterValue >= 1 ==> chunks[1].values == Repeat(2 * UnitPoint(s) % s.curve.q, |config|))
            && (chunks[0].values != chunks[1].values <==> s.maxCounterValue >= 1)
  {
    CapFits(s);
    UnitMultiple(s);
    CountersToldApart(s, 1, 2);
    var chunks := PlainChunks(s, config, CONFLICTING_KEYS, reg);
    assert |config| > 0;
    assert chunks[0].values[0] == CounterPointOf(s, 1) && chunks[1].values[0] == CounterPointOf(s, 2);
  }

  /** A hash without collisions on the integers in play lets the reader tell all indexes apart. */
  lemma IndexesToldApart(s: Setup, m: int, n: int)
    requires s.curve.hashToCurve(ToString(m)) == s.curve.hashToCurve(ToString(n)) ==> ToString(m) == ToString(n)
    ensures HashPoint(s, m) == HashPoint(s, n) <==> m == n
  {
    ToStringInjective(m, n);
  }

  /** The registers that a reader finds under one index. */
  function WithIndex(chunks: seq<Chunk>, index: nat): seq<Chunk> {
    if |chunks| == 0 then []
    else
      var n := |chunks| - 1;
      WithIndex(chunks[..n], index) + if chunks[n].index == index then [chunks[n]] else []
  }

  lemma {:induction false} WithIndexAppends(a: seq<Chunk>, b: seq<Chunk>, index: nat)
    ensures WithIndex(a + b, index) == WithIndex(a, index) + WithIndex(b, index)
    decreases |b|
  {
    if |b| == 0 {
      assert a + b == a;
    } else {
      var n := |b| - 1;
      assert (a + b)[..|a + b| - 1] == a + b[..n];
      WithIndexAppends(a, b[..n], index);
    }
  }

  lemma {:induction false} WithOneIndex(chunks: seq<Chunk>, index: nat, own: nat)
    requires forall i :: 0 <= i < |chunks| ==> chunks[i].index == own
    ensures WithIndex(chunks, index) == if index == own then chunks else []
    decreases |chunks|
  {
    if |chunks| > 0 {
      var n := |chunks| - 1;
      WithOneIndex(chunks[..n], index, own);
      assert chunks == chunks[..n] + [chunks[n]];
    }
  }

  lemma PlainIndex(s: Setup, config: seq<ProtoAggregator>, strategy: Strategy, reg: Register)
    requires s.curve.q >= 1 && Matches(config, reg)
    ensures forall i :: 0 <= i < |PlainChunks(s, config, strategy, reg)| ==>
              PlainChunks(s, config, strategy, reg)[i].index == HashPoint(s, reg.index)
  {
  }

  lemma {:induction false} OthersNotFound(
      s: Setup, config: seq<ProtoAggregator>, strategy: Strategy, regs: seq<Register>, index: nat)
    requires s.curve.q >= 1 && forall reg :: reg in regs ==> Matches(config, reg)
    requires forall i :: 0 <= i < |regs| ==> HashPoint(s, regs[i].index) != index
    ensures WithIndex(SketchChunks(s, config, strategy, regs), index) == []
    decreases |regs|
  {
    hide PlainChunks, HashPoint;
    if |regs| > 0 {
      var n := |regs| - 1;
      OthersNotFound(s, config, strategy, regs[..n], index);
      PlainIndex(s, config, strategy, regs[n]);
      WithOneIndex(PlainChunks(s, config, strategy, regs[n]), index, HashPoint(s, regs[n].index));
      WithIndexAppends(SketchChunks(s, config, strategy, regs[..n]), PlainChunks(s, config, strategy, regs[n]), index);
    }
  }

  /** Under the index of a register a reader finds just its plaintext, if no other register shares the point. */
  lemma {:induction false} RegisterFound(
      s: Setup, config: seq<ProtoAggregator>, strategy: Strategy, regs: seq<Register>, j: nat)
    requires s.curve.q >= 1 && forall reg :: reg in regs ==> Matches(config, reg)
    requires j < |regs|
    requires forall i :: 0 <= i < |regs| && i != j ==> HashPoint(s, regs[i].index) != HashPoint(s, regs[j].index)
    ensures WithIndex(SketchChunks(s, config, strategy, regs), HashPoint(s, regs[j].index))
         == PlainChunks(s, config, strategy, regs[j])
    decreases |regs|
  {
    hide PlainChunks, HashPoint, WithIndex;
    var n, index := |regs| - 1, HashPoint(s, regs[j].index);
    if j < n {
      RegisterFound(s, config, strategy, regs[..n], j);
    } else {
      OthersNotFound(s, config, strategy, regs[..n], index);
    }
    PlainIndex(s, config, strategy, regs[n]);
    WithOneIndex(PlainChunks(s, config, strategy, regs[n]), index, HashPoint(s, regs[n].index));
    WithIndexAppends(SketchChunks(s, config, strategy, regs[..n]), PlainChunks(s, config, strategy, regs[n]), index);
  }

  // Clamping and homomorphic addition.

  function Sum(counts: seq<nat>): nat {
    if |counts| == 0 then 0 else counts[0] + Sum(counts[1..])
  }

  function ClampAll(counts: seq<nat>, cap: nat): (r: seq<nat>)
    ensures |r| == |counts|
  {
    seq(|counts|, i requires 0 <= i < |counts| => Clamp(counts[i], cap))
  }

  /** Clamping every count before adding loses nothing that clamping the total would keep. */
  lemma {:induction false} EarlyClampingIsExact(counts: seq<nat>, cap: nat)
    ensures Clamp(Sum(ClampAll(counts, cap)), cap) == Clamp(Sum(counts), cap)
    decreases |counts|
  {
    if |counts| > 0 {
      EarlyClampingIsExact(counts[1..], cap);
      assert ClampAll(counts, cap)[1..] == ClampAll(counts[1..], cap);
    }
  }

  /** A ciphertext as a pair of points. */
  datatype Pair = Pair(u: nat, e: nat)

  /** Adding ciphertexts half by half, as the aggregating parties do. */
  function AddAll(pairs: seq<Pair>, q: nat): Pair
    requires q >= 1
  {
    if |pairs| == 0 then Pair(0, 0)
    else
      var rest := AddAll(pairs[1..], q);
      Pair(Reduce(pairs[0].u + rest.u, q), Reduce(pairs[0].e + rest.e, q))
  }

  lemma AddedMultiples(a: nat, b: nat, p: nat, q: nat)
    requires q >= 1
    ensures Reduce(Multiple(a, p, q) + Multiple(b, p, q), q) == Multiple(a + b, p, q)
  {
    Distribute(p, a, b);
    ReduceSum(a * p, b * p, q);
    assert (a + b) * p == a * p + b * p;
  }

  /** Adding encryptions of clamped counters encrypts the multiple of the unit point by their sum. */
  lemma {:induction false} AddedCounters(s: Setup, secret: nat, counts: seq<nat>, pairs: seq<Pair>)
    requires ValidSetup(s) && |pairs| == |counts|
    requires forall i :: 0 <= i < |pairs| ==>
               Opened(pairs[i].u, pairs[i].e, secret, s.curve.q) == CounterPointOf(s, counts[i])
    ensures var total := AddAll(pairs, s.curve.q);
            Opened(total.u, total.e, secret, s.curve.q)
            == Multiple(Sum(ClampAll(counts, Cap(s))), UnitPoint(s), s.curve.q)
    decreases |pairs|
  {
    var q := s.curve.q;
    if |pairs| == 0 {
      ReduceSmall(0, q);
      assert Opened(0, 0, secret, q) == Reduce(0, q);
    } else {
      var rest := AddAll(pairs[1..], q);
      AddedCounters(s, secret, counts[1..], pairs[1..]);
      AddedCiphertexts(pairs[0].u, pairs[0].e, rest.u, rest.e, secret, q);
      assert ClampAll(counts, Cap(s))[1..] == ClampAll(counts[1..], Cap(s));
      var a, b := Clamp(counts[0], Cap(s)), Sum(ClampAll(counts[1..], Cap(s)));
      AddedMultiples(a, b, UnitPoint(s), q);
    }
  }
}
