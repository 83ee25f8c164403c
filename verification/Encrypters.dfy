/** The sketch encrypter: from registers to one flat string of ciphertexts. */
module Encrypters {
  import opened Curves
  import opened Decimals
  import opened Results
  import opened Sampling
  import opened Words

  const UNIT_EC_POINT := "unit_ec_point"
  const DESTROYED_REGISTER_KEY := "destroyed_register_key"

  datatype ProtoAggregator = AGGREGATOR_UNSPECIFIED | SUM | UNIQUE

  datatype Strategy = UNSPECIFIED | CONFLICTING_KEYS | FLAGGED_KEY

  datatype Register = Register(index: int, values: seq<int>)

  datatype Sketch = Sketch(config: seq<ProtoAggregator>, registers: seq<Register>)

  predicate Matches(config: seq<ProtoAggregator>, reg: Register) {
    |reg.values| == |config|
  }

  /** Some UNIQUE value is not positive. */
  predicate Destroyed(config: seq<ProtoAggregator>, reg: Register)
    requires Matches(config, reg)
  {
    exists i :: 0 <= i < |config| && config[i] == UNIQUE && reg.values[i] <= 0
  }

  method ValidateSketch(sketch: Sketch) returns (valid: bool)
    ensures valid <==> forall reg :: reg in sketch.registers ==> Matches(sketch.config, reg)
  {
    for i := 0 to |sketch.registers|
      invariant forall j :: 0 <= j < i ==> Matches(sketch.config, sketch.registers[j])
    {
      if |sketch.config| != |sketch.registers[i].values| {
        assert sketch.registers[i] in sketch.registers;
        return false;
      }
    }
    return true;
  }

  method IsRegisterDestroyed(reg: Register, config: seq<ProtoAggregator>) returns (destroyed: bool)
    requires Matches(config, reg)
    ensures destroyed <==> Destroyed(config, reg)
  {
    for i := 0 to |reg.values|
      invariant forall j :: 0 <= j < i ==> !(config[j] == UNIQUE && reg.values[j] <= 0)
    {
      if config[i] == UNIQUE && reg.values[i] <= 0 {
        return true;
      }
    }
    return false;
  }

  // The program a register compiles to: points to encrypt, in order, up to a failure.

  datatype Step = Emit(point: nat) | Stop(error: Error)

  /** What does not change while an encrypter is in use. */
  datatype Setup = Setup(curve: Curve, key: PublicKey, maxCounterValue: nat, random: nat -> nat)

  ghost predicate ValidSetup(s: Setup) {
    && ValidCurve(s.curve)
    && Point(s.curve, s.key.g) && s.key.y < s.curve.q
    && s.maxCounterValue < WORD
  }

  /** max_counter_value + 1 in the source's 64-bit arithmetic. */
  function Cap(s: Setup): nat {
    (s.maxCounterValue + 1) % WORD
  }

  function UnitPoint(s: Setup): nat {
    s.curve.hashToCurve(UNIT_EC_POINT)
  }

  function Clamp(n: nat, cap: nat): nat {
    if n <= cap then n else cap
  }

  /** The point of a counter, without any cache: min(n, cap) times the unit point. */
  function CounterStep(s: Setup, n: nat): Step
    requires s.curve.q >= 1
  {
    if n == 0 || Cap(s) == 0 then Stop(Internal)
    else Emit(Multiple(Clamp(n, Cap(s)), UnitPoint(s), s.curve.q))
  }

  function HashStep(s: Setup, n: int): Step {
    Emit(s.curve.hashToCurve(ToString(n)))
  }

  function ValueStep(s: Setup, t: ProtoAggregator, value: int): Step
    requires s.curve.q >= 1
  {
    match t
    case UNIQUE => HashStep(s, value)
    case SUM => if value <= 0 then Stop(InvalidArgument) else CounterStep(s, value)
    case AGGREGATOR_UNSPECIFIED => Stop(InvalidArgument)
  }

  function ValueSteps(s: Setup, config: seq<ProtoAggregator>, values: seq<int>): (r: seq<Step>)
    requires s.curve.q >= 1 && |values| == |config|
    ensures |r| == |config|
  {
    seq(|config|, i requires 0 <= i < |config| => ValueStep(s, config[i], values[i]))
  }

  function Repeat<T>(x: T, n: nat): (r: seq<T>)
    ensures |r| == n
  {
    seq(n, _ => x)
  }

  /** Values that all carry one counter; the lookup happens even if there are none. */
  function ValuesOf(s: Setup, n: nat, counter: nat): seq<Step>
    requires s.curve.q >= 1
  {
    var step := CounterStep(s, counter);
    if step.Stop? then [step] else Repeat(step, n)
  }

  function SameValueSteps(s: Setup, index: int, n: nat, counter: nat): seq<Step>
    requires s.curve.q >= 1
  {
    [HashStep(s, index)] + ValuesOf(s, n, counter)
  }

  function FlaggedSteps(s: Setup, index: int, n: nat): seq<Step> {
    [HashStep(s, index)] + Repeat(Emit(s.curve.hashToCurve(DESTROYED_REGISTER_KEY)), n)
  }

  function DestroyedSteps(s: Setup, strategy: Strategy, reg: Register): seq<Step>
    requires s.curve.q >= 1
  {
    match strategy
    case CONFLICTING_KEYS =>
      SameValueSteps(s, reg.index, |reg.values|, 1) + SameValueSteps(s, reg.index, |reg.values|, 2)
    case FLAGGED_KEY => FlaggedSteps(s, reg.index, |reg.values|)
    case UNSPECIFIED => [Stop(InvalidArgument)]
  }

  function PlainSteps(s: Setup, config: seq<ProtoAggregator>, reg: Register): (r: seq<Step>)
    requires s.curve.q >= 1 && Matches(config, reg)
    ensures |r| == 1 + |reg.values|
  {
    [HashStep(s, reg.index)] + ValueSteps(s, config, reg.values)
  }

  function RegisterSteps(s: Setup, config: seq<ProtoAggregator>, strategy: Strategy, reg: Register): seq<Step>
    requires s.curve.q >= 1 && Matches(config, reg)
  {
    if Destroyed(config, reg) then DestroyedSteps(s, strategy, reg) else PlainSteps(s, config, reg)
  }

  function SketchSteps(s: Setup, config: seq<ProtoAggregator>, strategy: Strategy, regs: seq<Register>): seq<Step>
    requires s.curve.q >= 1 && forall reg :: reg in regs ==> Matches(config, reg)
  {
    if |regs| == 0 then []
    else
      var n := |regs| - 1;
      SketchSteps(s, config, strategy, regs[..n]) + RegisterSteps(s, config, strategy, regs[n])
  }

  /** Output followed by output; the first error wins. */
  function Join(first: Result<seq<Byte>>, second: Result<seq<Byte>>): Result<seq<Byte>> {
    if first.Failure? then first
    else if second.Failure? then second
    else Success(first.value + second.value)
  }

  lemma JoinAssociates(a: Result<seq<Byte>>, b: Result<seq<Byte>>, c: Result<seq<Byte>>)
    ensures Join(Join(a, b), c) == Join(a, Join(b, c))
    ensures Join(Success([]), a) == a
  {
    if a.Success? {
      assert [] + a.value == a.value;
      if b.Success? && c.Success? {
        assert a.value + b.value + c.value == a.value + (b.value + c.value);
      }
    }
  }

  function ExecuteStep(s: Setup, step: Step, r: nat): Result<seq<Byte>>
    requires s.curve.q >= 1
  {
    match step
    case Stop(e) => Failure(e)
    case Emit(p) => Curves.Encrypt(s.curve, s.key, p, r)
  }

  /** Running steps from a position of the randomness: the ciphertexts, or the first error. */
  function Execute(s: Setup, steps: seq<Step>, pos: nat): Result<seq<Byte>>
    requires s.curve.q >= 1
  {
    if |steps| == 0 then Success([])
    else Join(ExecuteStep(s, steps[0], s.random(pos)), Execute(s, steps[1..], pos + 1))
  }

  /** One program after another. */
  lemma {:induction false} ExecuteSequence(s: Setup, a: seq<Step>, b: seq<Step>, pos: nat)
    requires s.curve.q >= 1
    ensures Execute(s, a + b, pos) == Join(Execute(s, a, pos), Execute(s, b, pos + |a|))
    decreases |a|
  {
    hide Join, ExecuteStep;
    if |a| == 0 {
      assert a + b == b;
      JoinAssociates(Execute(s, b, pos), Success([]), Success([]));
    } else {
      ExecuteSequence(s, a[1..], b, pos + 1);
      assert (a + b)[0] == a[0] && (a + b)[1..] == a[1..] + b;
      JoinAssociates(ExecuteStep(s, a[0], s.random(pos)), Execute(s, a[1..], pos + 1), Execute(s, b, pos + |a|));
    }
  }

  // The caches and the growing output.

  /** Every remembered counter is in range and has its own point. */
  ghost predicate MemoHolds(s: Setup, memo: map<nat, seq<Byte>>)
    requires s.curve.q >= 1
  {
    forall n :: n in memo ==>
      1 <= n <= Cap(s) && memo[n] == s.curve.encode(Multiple(n, UnitPoint(s), s.curve.q))
  }

  ghost predicate FlagHolds(s: Setup, flag: seq<Byte>) {
    flag == [] || flag == s.curve.encode(s.curve.hashToCurve(DESTROYED_REGISTER_KEY))
  }

  /** What a method that runs these steps leaves behind. */
  ghost predicate Ran(s: Setup, steps: seq<Step>, pos: nat, bytes: seq<Byte>,
                      status: Status, pos': nat, bytes': seq<Byte>)
    requires s.curve.q >= 1
  {
    match Execute(s, steps, pos)
    case Failure(e) => status == Failed(e) && bytes <= bytes' && pos <= pos'
    case Success(more) => status == Ok && bytes' == bytes + more && pos' == pos + |steps|
  }

  lemma RanNothing(s: Setup, pos: nat, bytes: seq<Byte>)
    requires s.curve.q >= 1
    ensures Ran(s, [], pos, bytes, Ok, pos, bytes)
  {
  }

  lemma RanThen(s: Setup, a: seq<Step>, b: seq<Step>, pos: nat, bytes: seq<Byte>,
                pos': nat, bytes': seq<Byte>, status: Status, pos'': nat, bytes'': seq<Byte>)
    requires s.curve.q >= 1
    requires Ran(s, a, pos, bytes, Ok, pos', bytes')
    requires Ran(s, b, pos', bytes', status, pos'', bytes'')
    ensures Ran(s, a + b, pos, bytes, status, pos'', bytes'')
  {
    hide Execute;
    ExecuteSequence(s, a, b, pos);
    assert Execute(s, a, pos).Success?;
    if Execute(s, b, pos').Success? {
      assert bytes + Execute(s, a, pos).value + Execute(s, b, pos').value
          == bytes + (Execute(s, a, pos).value + Execute(s, b, pos').value);
    }
  }

  lemma RanUntilError(s: Setup, a: seq<Step>, b: seq<Step>, pos: nat, bytes: seq<Byte>,
                      status: Status, pos': nat, bytes': seq<Byte>)
    requires s.curve.q >= 1 && status != Ok
    requires Ran(s, a, pos, bytes, status, pos', bytes')
    ensures Ran(s, a + b, pos, bytes, status, pos', bytes')
  {
    ExecuteSequence(s, a, b, pos);
  }

  lemma RanOne(s: Setup, point: nat, pos: nat, bytes: seq<Byte>)
    requires s.curve.q >= 1
    ensures var c := Curves.Encrypt(s.curve, s.key, point, s.random(pos));
            && (c.Success? ==> Ran(s, [Emit(point)], pos, bytes, Ok, pos + 1, bytes + c.value))
            && (c.Failure? ==> Ran(s, [Emit(point)], pos, bytes, Failed(c.error), pos, bytes))
  {
  }

  lemma RanStop(s: Setup, e: Error, pos: nat, bytes: seq<Byte>)
    requires s.curve.q >= 1
    ensures Ran(s, [Stop(e)], pos, bytes, Failed(e), pos, bytes)
  {
  }

  lemma CapFits(s: Setup)
    requires ValidSetup(s)
    ensures Cap(s) < WORD < s.curve.q
    ensures Cap(s) == if s.maxCounterValue == WORD - 1 then 0 else s.maxCounterValue + 1
    ensures Point(s.curve, UnitPoint(s))
  {
    HashedPoint(s.curve, UNIT_EC_POINT);
  }

  lemma CounterPoint(s: Setup, n: nat)
    requires ValidSetup(s) && CounterStep(s, n).Emit?
    ensures Point(s.curve, CounterStep(s, n).point)
  {
    CapFits(s);
    MultiplePoint(s.curve, Clamp(n, Cap(s)), UnitPoint(s));
  }

  lemma UnitMultiple(s: Setup)
    requires ValidSetup(s)
    ensures Multiple(1, UnitPoint(s), s.curve.q) == UnitPoint(s)
  {
    CapFits(s);
    ReduceSmall(UnitPoint(s), s.curve.q);
  }

  class ByteString {
    var bytes: seq<Byte>

    constructor ()
      ensures bytes == []
    {
      bytes := [];
    }

    method Append(more: seq<Byte>)
      modifies this
      ensures bytes == old(bytes) + more
    {
      bytes := bytes + more;
    }
  }

  // Unfolding the definitions above, one at a time.

  ghost predicate IndexPoint(s: Setup, index: int, ec: seq<Byte>) {
    Point(s.curve, HashStep(s, index).point) && ec == s.curve.encode(HashStep(s, index).point)
  }

  lemma IndexIs(s: Setup, index: int)
    requires ValidCurve(s.curve)
    ensures HashStep(s, index) == Emit(s.curve.hashToCurve(ToString(index)))
    ensures IndexPoint(s, index, s.curve.encode(s.curve.hashToCurve(ToString(index))))
  {
  }

  lemma SameValueIs(s: Setup, index: int, count: nat, n: nat)
    requires s.curve.q >= 1
    ensures SameValueSteps(s, index, count, n) == [HashStep(s, index)] + ValuesOf(s, count, n)
    ensures HashStep(s, index).Emit? && HashStep(s, index) == Emit(HashStep(s, index).point)
    ensures var step := CounterStep(s, n);
            if step.Stop? then ValuesOf(s, count, n) == [step] && step == Stop(step.error)
            else ValuesOf(s, count, n) == Repeat(step, count) && step == Emit(step.point)
    ensures forall ec :: IndexPoint(s, index, ec) ==>
              Point(s.curve, HashStep(s, index).point) && ec == s.curve.encode(HashStep(s, index).point)
  {
  }

  lemma FlaggedIs(s: Setup, index: int, count: nat)
    requires s.curve.q >= 1
    ensures FlaggedSteps(s, index, count)
         == [HashStep(s, index)] + Repeat(Emit(s.curve.hashToCurve(DESTROYED_REGISTER_KEY)), count)
    ensures HashStep(s, index).Emit? && HashStep(s, index) == Emit(HashStep(s, index).point)
    ensures forall ec :: IndexPoint(s, index, ec) ==>
              Point(s.curve, HashStep(s, index).point) && ec == s.curve.encode(HashStep(s, index).point)
  {
  }

  lemma DestroyedIs(s: Setup, reg: Register)
    requires s.curve.q >= 1
    ensures DestroyedSteps(s, CONFLICTING_KEYS, reg)
         == SameValueSteps(s, reg.index, |reg.values|, 1) + SameValueSteps(s, reg.index, |reg.values|, 2)
    ensures DestroyedSteps(s, FLAGGED_KEY, reg) == FlaggedSteps(s, reg.index, |reg.values|)
    ensures DestroyedSteps(s, UNSPECIFIED, reg) == [Stop(InvalidArgument)]
  {
  }

  lemma ValueIs(s: Setup, value: int)
    requires s.curve.q >= 1
    ensures ValueStep(s, UNIQUE, value) == HashStep(s, value) == Emit(s.curve.hashToCurve(ToString(value)))
    ensures value <= 0 ==> ValueStep(s, SUM, value) == Stop(InvalidArgument)
    ensures value > 0 ==> ValueStep(s, SUM, value) == CounterStep(s, value)
    ensures ValueStep(s, AGGREGATOR_UNSPECIFIED, value) == Stop(InvalidArgument)
  {
  }

  lemma PlainIs(s: Setup, config: seq<ProtoAggregator>, reg: Register, i: nat)
    requires s.curve.q >= 1 && Matches(config, reg)
    ensures var steps := PlainSteps(s, config, reg);
            && |config| == |reg.values|
            && HashStep(s, reg.index) == Emit(HashStep(s, reg.index).point)
            && steps[..1] == [HashStep(s, reg.index)]
            && (i < |reg.values| ==>
                  && steps[i + 1] == ValueStep(s, config[i], reg.values[i])
                  && steps[..i + 2] == steps[..i + 1] + [steps[i + 1]]
                  && steps == steps[..i + 2] + steps[i + 2..])
            && steps == steps[..1] + steps[1..]
  {
    hide ValueStep;
  }

  lemma RegisterIs(s: Setup, config: seq<ProtoAggregator>, strategy: Strategy, reg: Register)
    requires s.curve.q >= 1 && Matches(config, reg)
    ensures RegisterSteps(s, config, strategy, reg)
         == if Destroyed(config, reg) then DestroyedSteps(s, strategy, reg) else PlainSteps(s, config, reg)
  {
  }

  lemma PrefixIs(s: Setup, config: seq<ProtoAggregator>, strategy: Strategy, regs: seq<Register>, i: nat)
    requires s.curve.q >= 1 && forall reg :: reg in regs ==> Matches(config, reg)
    ensures SketchSteps(s, config, strategy, regs[..0]) == []
    ensures i < |regs| ==>
              && Matches(config, regs[i])
              && (forall reg :: reg in regs[..i + 1] ==> Matches(config, reg))
              && SketchSteps(s, config, strategy, regs[..i + 1])
                 == SketchSteps(s, config, strategy, regs[..i]) + RegisterSteps(s, config, strategy, regs[i])
  {
    if i < |regs| {
      assert regs[..i + 1][..i] == regs[..i];
    }
  }

  lemma {:induction false} RestIs(
      s: Setup, config: seq<ProtoAggregator>, strategy: Strategy, regs: seq<Register>, i: nat)
    returns (rest: seq<Step>)
    requires s.curve.q >= 1 && i <= |regs| && forall reg :: reg in regs ==> Matches(config, reg)
    ensures SketchSteps(s, config, strategy, regs) == SketchSteps(s, config, strategy, regs[..i]) + rest
    decreases |regs| - i
  {
    hide *;
    if i == |regs| {
      assert regs[..i] == regs;
      rest := [];
    } else {
      PrefixIs(s, config, strategy, regs, i);
      var later := RestIs(s, config, strategy, regs, i + 1);
      var done, more := SketchSteps(s, config, strategy, regs[..i]), RegisterSteps(s, config, strategy, regs[i]);
      rest := more + later;
      assert done + more + later == done + (more + later);
    }
  }

  lemma RanFailed(s: Setup, steps: seq<Step>, pos: nat, bytes: seq<Byte>, status: Status, pos': nat, bytes': seq<Byte>)
    requires s.curve.q >= 1 && status != Ok && Ran(s, steps, pos, bytes, status, pos', bytes')
    ensures Execute(s, steps, pos) == Failure(status.error) && pos <= pos'
  {
  }

  lemma RanOk(s: Setup, steps: seq<Step>, pos: nat, pos': nat, bytes': seq<Byte>)
    requires s.curve.q >= 1 && Ran(s, steps, pos, [], Ok, pos', bytes')
    ensures Execute(s, steps, pos) == Success(bytes') && pos' == pos + |steps|
  {
    if Execute(s, steps, pos).Success? {
      assert [] + Execute(s, steps, pos).value == Execute(s, steps, pos).value;
    }
  }

  lemma RepeatGrows(step: Step, i: nat, count: nat)
    requires i <= count
    ensures Repeat(step, 0) == []
    ensures Repeat(step, i + 1) == Repeat(step, i) + [step]
    ensures i < count ==> Repeat(step, count) == Repeat(step, i + 1) + Repeat(step, count - i - 1)
  {
  }

  class SketchEncrypter {
    const setup: Setup
    var integerToEcPoint: map<nat, seq<Byte>>
    var destroyedRegisterKeyEc: seq<Byte>
    var drawn: nat

    constructor (setup: Setup)
      requires ValidSetup(setup)
      ensures Valid() && this.setup == setup && drawn == 0
    {
      this.setup := setup;
      integerToEcPoint := map[];
      destroyedRegisterKeyEc := [];
      drawn := 0;
    }

    ghost predicate Valid()
      reads this
    {
      && ValidSetup(setup)
      && MemoHolds(setup, integerToEcPoint)
      && FlagHolds(setup, destroyedRegisterKeyEc)
    }

    lemma GroupOrder()
      requires Valid()
      ensures setup.curve.q >= 1 && ValidCurve(setup.curve)
    {
    }

    method MapToCurve(plaintext: string) returns (ec: seq<Byte>)
      requires Valid()
      ensures ec == setup.curve.encode(setup.curve.hashToCurve(plaintext))
      ensures Point(setup.curve, setup.curve.hashToCurve(plaintext)) && ec != []
    {
      HashedPoint(setup.curve, plaintext);
      CodedPoint(setup.curve, setup.curve.hashToCurve(plaintext));
      ec := setup.curve.encode(setup.curve.hashToCurve(plaintext));
    }

    /** The memo is consulted first; its answer is the one that would be computed without it. */
    method GetECPointForInteger(n: nat) returns (r: Result<seq<Byte>>)
      requires Valid()
      modifies this`integerToEcPoint
      ensures Valid()
      ensures CounterStep(setup, n).Stop? ==> r == Failure(CounterStep(setup, n).error)
      ensures CounterStep(setup, n).Emit? ==>
                r == Success(setup.curve.encode(CounterStep(setup, n).point))
                && Point(setup.curve, CounterStep(setup, n).point)
      ensures integerToEcPoint == if r.Success? then old(integerToEcPoint)[Clamp(n, Cap(setup)) := r.value]
                                  else old(integerToEcPoint)
      decreases n
    {
      CapFits(setup);
      if CounterStep(setup, n).Emit? {
        CounterPoint(setup, n);
      }
      if n in integerToEcPoint {
        return Success(integerToEcPoint[n]);
      }
      var cap := (setup.maxCounterValue + 1) % WORD;
      if n > cap {
        r := GetECPointForInteger(cap);
        return;
      }
      var ec;
      if n == 0 {
        return Failure(Internal);
      } else if n == 1 {
        ec := MapToCurve(UNIT_EC_POINT);
        UnitMultiple(setup);
      } else {
        var unit := setup.curve.hashToCurve(UNIT_EC_POINT);
        var multiple := Multiple(n, unit, setup.curve.q);
        ec := setup.curve.encode(multiple);
      }
      integerToEcPoint := integerToEcPoint[n := ec];
      return Success(ec);
    }

    method EncryptAdditionalECPoint(ecPoint: seq<Byte>, encrypted: ByteString, ghost point: nat)
      returns (status: Status)
      requires Valid() && Point(setup.curve, point) && ecPoint == setup.curve.encode(point)
      modifies this`drawn, encrypted
      ensures Valid()
      ensures Ran(setup, [Emit(point)], old(drawn), old(encrypted.bytes), status, drawn, encrypted.bytes)
    {
      CodedPoint(setup.curve, point);
      RanOne(setup, point, drawn, encrypted.bytes);
      var ciphertext := Curves.Encrypt(setup.curve, setup.key, setup.curve.decode(ecPoint), setup.random(drawn));
      if ciphertext.Failure? {
        return Failed(ciphertext.error);
      }
      drawn := drawn + 1;
      encrypted.Append(ciphertext.value);
      return Ok;
    }

    /** The loop shared by all registers whose values are one and the same point. */
    method AppendRepeatedly(ecPoint: seq<Byte>, count: nat, encrypted: ByteString, ghost point: nat)
      returns (status: Status)
      requires Valid() && Point(setup.curve, point) && ecPoint == setup.curve.encode(point)
      modifies this`drawn, encrypted
      ensures Valid()
      ensures Ran(setup, Repeat(Emit(point), count), old(drawn), old(encrypted.bytes), status, drawn, encrypted.bytes)
    {
      hide *;
      GroupOrder();
      ghost var step := Emit(point);
      RanNothing(setup, drawn, encrypted.bytes);
      RepeatGrows(step, 0, count);
      for i := 0 to count
        invariant Valid()
        invariant Ran(setup, Repeat(step, i), old(drawn), old(encrypted.bytes), Ok, drawn, encrypted.bytes)
      {
        ghost var pos, bytes := drawn, encrypted.bytes;
        RepeatGrows(step, i, count);
        status := EncryptAdditionalECPoint(ecPoint, encrypted, point);
        RanThen(setup, Repeat(step, i), [step], old(drawn), old(encrypted.bytes),
                pos, bytes, status, drawn, encrypted.bytes);
        if status != Ok {
          RanUntilError(setup, Repeat(step, i + 1), Repeat(step, count - i - 1), old(drawn), old(encrypted.bytes),
                        status, drawn, encrypted.bytes);
          return;
        }
      }
      return Ok;
    }

    method AppendEncryptedRegisterWithSameValue(indexEc: seq<Byte>, count: nat, n: nat, encrypted: ByteString,
                                                ghost index: int)
      returns (status: Status)
      requires Valid() && IndexPoint(setup, index, indexEc)
      modifies this`drawn, this`integerToEcPoint, encrypted
      ensures Valid()
      ensures Ran(setup, SameValueSteps(setup, index, count, n), old(drawn), old(encrypted.bytes),
                  status, drawn, encrypted.bytes)
    {
      hide *;
      GroupOrder();
      SameValueIs(setup, index, count, n);
      ghost var start, empty := drawn, encrypted.bytes;
      ghost var first, step, rest := HashStep(setup, index), CounterStep(setup, n), ValuesOf(setup, count, n);
      status := EncryptAdditionalECPoint(indexEc, encrypted, first.point);
      ghost var pos, bytes := drawn, encrypted.bytes;
      if status != Ok {
        RanUntilError(setup, [first], rest, start, empty, status, pos, bytes);
        return;
      }
      var valueEc := GetECPointForInteger(n);
      if valueEc.Failure? {
        RanStop(setup, step.error, pos, bytes);
        status := Failed(valueEc.error);
        RanThen(setup, [first], rest, start, empty, pos, bytes, status, pos, bytes);
        return;
      }
      status := AppendRepeatedly(valueEc.value, count, encrypted, step.point);
      RanThen(setup, [first], rest, start, empty, pos, bytes, status, drawn, encrypted.bytes);
    }

    /** Maps the flag to the curve unless that was done before. */
    method EnsureFlag()
      requires Valid()
      modifies this`destroyedRegisterKeyEc
      ensures Valid()
      ensures destroyedRegisterKeyEc == setup.curve.encode(setup.curve.hashToCurve(DESTROYED_REGISTER_KEY))
      ensures Point(setup.curve, setup.curve.hashToCurve(DESTROYED_REGISTER_KEY))
    {
      HashedPoint(setup.curve, DESTROYED_REGISTER_KEY);
      if |destroyedRegisterKeyEc| == 0 {
        destroyedRegisterKeyEc := MapToCurve(DESTROYED_REGISTER_KEY);
      }
    }

    method AppendFlaggedDestroyedRegister(indexEc: seq<Byte>, count: nat, encrypted: ByteString, ghost index: int)
      returns (status: Status)
      requires Valid() && IndexPoint(setup, index, indexEc)
      modifies this`drawn, this`destroyedRegisterKeyEc, encrypted
      ensures Valid()
      ensures Ran(setup, FlaggedSteps(setup, index, count), old(drawn), old(encrypted.bytes),
                  status, drawn, encrypted.bytes)
    {
      hide *;
      GroupOrder();
      FlaggedIs(setup, index, count);
      ghost var start, empty := drawn, encrypted.bytes;
      ghost var first, flag := HashStep(setup, index), setup.curve.hashToCurve(DESTROYED_REGISTER_KEY);
      status := EncryptAdditionalECPoint(indexEc, encrypted, first.point);
      ghost var pos, bytes := drawn, encrypted.bytes;
      if status != Ok {
        RanUntilError(setup, [first], Repeat(Emit(flag), count), start, empty, status, pos, bytes);
        return;
      }
      EnsureFlag();
      status := AppendRepeatedly(destroyedRegisterKeyEc, count, encrypted, flag);
      RanThen(setup, [first], Repeat(Emit(flag), count), start, empty, pos, bytes, status, drawn, encrypted.bytes);
    }

    method EncryptDestroyedRegister(reg: Register, strategy: Strategy, encrypted: ByteString) returns (status: Status)
      requires Valid()
      modifies this, encrypted
      ensures Valid()
      ensures Ran(setup, DestroyedSteps(setup, strategy, reg), old(drawn), old(encrypted.bytes),
                  status, drawn, encrypted.bytes)
    {
      hide *;
      GroupOrder();
      DestroyedIs(setup, reg);
      var indexEc := MapToCurve(ToString(reg.index));
      IndexIs(setup, reg.index);
      ghost var start, empty := drawn, encrypted.bytes;
      match strategy
      case CONFLICTING_KEYS =>
        ghost var one, two := SameValueSteps(setup, reg.index, |reg.values|, 1),
                              SameValueSteps(setup, reg.index, |reg.values|, 2);
        status := AppendEncryptedRegisterWithSameValue(indexEc, |reg.values|, 1, encrypted, reg.index);
        ghost var pos, bytes := drawn, encrypted.bytes;
        if status != Ok {
          RanUntilError(setup, one, two, start, empty, status, pos, bytes);
          return;
        }
        status := AppendEncryptedRegisterWithSameValue(indexEc, |reg.values|, 2, encrypted, reg.index);
        RanThen(setup, one, two, start, empty, pos, bytes, status, drawn, encrypted.bytes);
      case FLAGGED_KEY =>
        status := AppendFlaggedDestroyedRegister(indexEc, |reg.values|, encrypted, reg.index);
      case UNSPECIFIED =>
        RanStop(setup, InvalidArgument, start, empty);
        status := Failed(InvalidArgument);
    }

    /** One value of a register that is not destroyed. */
    method EncryptValue(t: ProtoAggregator, value: int, encrypted: ByteString) returns (status: Status)
      requires Valid()
      modifies this`drawn, this`integerToEcPoint, encrypted
      ensures Valid()
      ensures Ran(setup, [ValueStep(setup, t, value)], old(drawn), old(encrypted.bytes),
                  status, drawn, encrypted.bytes)
    {
      hide *;
      GroupOrder();
      ValueIs(setup, value);
      match t
      case UNIQUE =>
        var ec := MapToCurve(ToString(value));
        status := EncryptAdditionalECPoint(ec, encrypted, HashStep(setup, value).point);
      case SUM =>
        if value <= 0 {
          RanStop(setup, InvalidArgument, drawn, encrypted.bytes);
          status := Failed(InvalidArgument);
        } else {
          var ec := GetECPointForInteger(value);
          if ec.Failure? {
            RanStop(setup, ec.error, drawn, encrypted.bytes);
            status := Failed(ec.error);
          } else {
            status := EncryptAdditionalECPoint(ec.value, encrypted, CounterStep(setup, value).point);
          }
        }
      case AGGREGATOR_UNSPECIFIED =>
        RanStop(setup, InvalidArgument, drawn, encrypted.bytes);
        status := Failed(InvalidArgument);
    }

    method EncryptNonDestroyedRegister(reg: Register, config: seq<ProtoAggregator>, encrypted: ByteString)
      returns (status: Status)
      requires Valid() && Matches(config, reg)
      modifies this`drawn, this`integerToEcPoint, encrypted
      ensures Valid()
      ensures Ran(setup, PlainSteps(setup, config, reg), old(drawn), old(encrypted.bytes),
                  status, drawn, encrypted.bytes)
    {
      hide *;
      GroupOrder();
      ghost var steps := PlainSteps(setup, config, reg);
      PlainIs(setup, config, reg, 0);
      var indexEc := MapToCurve(ToString(reg.index));
      IndexIs(setup, reg.index);
      status := EncryptAdditionalECPoint(indexEc, encrypted, HashStep(setup, reg.index).point);
      if status != Ok {
        RanUntilError(setup, steps[..1], steps[1..], old(drawn), old(encrypted.bytes), status, drawn, encrypted.bytes);
        return;
      }
      for i := 0 to |reg.values|
        invariant Valid() && status == Ok
        invariant Ran(setup, steps[..i + 1], old(drawn), old(encrypted.bytes), Ok, drawn, encrypted.bytes)
      {
        ghost var pos, bytes := drawn, encrypted.bytes;
        PlainIs(setup, config, reg, i);
        status := EncryptValue(config[i], reg.values[i], encrypted);
        RanThen(setup, steps[..i + 1], [steps[i + 1]], old(drawn), old(encrypted.bytes),
                pos, bytes, status, drawn, encrypted.bytes);
        if status != Ok {
          RanUntilError(setup, steps[..i + 2], steps[i + 2..], old(drawn), old(encrypted.bytes),
                        status, drawn, encrypted.bytes);
          return;
        }
      }
      assert steps[..|reg.values| + 1] == steps;
    }

    method EncryptAdditionalRegister(reg: Register, config: seq<ProtoAggregator>, strategy: Strategy,
                                     encrypted: ByteString)
      returns (status: Status)
      requires Valid() && Matches(config, reg)
      modifies this, encrypted
      ensures Valid()
      ensures Ran(setup, RegisterSteps(setup, config, strategy, reg), old(drawn), old(encrypted.bytes),
                  status, drawn, encrypted.bytes)
    {
      hide *;
      GroupOrder();
      RegisterIs(setup, config, strategy, reg);
      var destroyed := IsRegisterDestroyed(reg, config);
      if destroyed {
        status := EncryptDestroyedRegister(reg, strategy, encrypted);
      } else {
        status := EncryptNonDestroyedRegister(reg, config, encrypted);
      }
    }

    method EncryptRegisters(sketch: Sketch, strategy: Strategy) returns (r: Result<seq<Byte>>)
      requires Valid() && forall reg :: reg in sketch.registers ==> Matches(sketch.config, reg)
      modifies this
      ensures Valid()
      ensures var steps := SketchSteps(setup, sketch.config, strategy, sketch.registers);
              && r == Execute(setup, steps, old(drawn))
              && drawn >= old(drawn) && (r.Success? ==> drawn == old(drawn) + |steps|)
    {
      hide *;
      GroupOrder();
      var encrypted := new ByteString();
      ghost var start := drawn;
      ghost var regs := sketch.registers;
      PrefixIs(setup, sketch.config, strategy, regs, 0);
      RanNothing(setup, drawn, []);
      for i := 0 to |sketch.registers|
        invariant Valid() && fresh(encrypted)
        invariant forall reg :: reg in regs[..i] ==> Matches(sketch.config, reg)
        invariant Ran(setup, SketchSteps(setup, sketch.config, strategy, regs[..i]), start, [],
                      Ok, drawn, encrypted.bytes)
      {
        ghost var pos, bytes := drawn, encrypted.bytes;
        PrefixIs(setup, sketch.config, strategy, regs, i);
        var status := EncryptAdditionalRegister(sketch.registers[i], sketch.config, strategy, encrypted);
        ghost var done, more := SketchSteps(setup, sketch.config, strategy, regs[..i]),
                                RegisterSteps(setup, sketch.config, strategy, regs[i]);
        RanThen(setup, done, more, start, [], pos, bytes, status, drawn, encrypted.bytes);
        if status != Ok {
          var rest := RestIs(setup, sketch.config, strategy, regs, i + 1);
          RanUntilError(setup, done + more, rest, start, [], status, drawn, encrypted.bytes);
          RanFailed(setup, SketchSteps(setup, sketch.config, strategy, regs), start, [], status, drawn,
                    encrypted.bytes);
          return Failure(status.error);
        }
      }
      assert regs[..|regs|] == regs;
      RanOk(setup, SketchSteps(setup, sketch.config, strategy, regs), start, drawn, encrypted.bytes);
      return Success(encrypted.bytes);
    }

    method Encrypt(sketch: Sketch, strategy: Strategy) returns (r: Result<seq<Byte>>)
      requires Valid()
      modifies this
      ensures Valid()
      ensures var valid := forall reg :: reg in sketch.registers ==> Matches(sketch.config, reg);
              && (!valid ==> r == Failure(Internal))
              && (!valid ==> drawn == old(drawn))
              && (valid ==>
                    var steps := SketchSteps(setup, sketch.config, strategy, sketch.registers);
                    && r == Execute(setup, steps, old(drawn))
                    && drawn >= old(drawn) && (r.Success? ==> drawn == old(drawn) + |steps|))
    {
      var valid := ValidateSketch(sketch);
      if !valid {
        return Failure(Internal);
      }
      r := EncryptRegisters(sketch, strategy);
    }
  }
}
