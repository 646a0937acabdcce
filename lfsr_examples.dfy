/**
 * Properties of the register engine used as a client would: the worked
 * example with seed 01101000010 and tap 8, determinism, and splitting a
 * generation in two.
 */
module LfsrExamples {
  import opened Bits
  import opened LfsrEngine

  const ExampleSeed: string := "01101000010"
  const ExampleTap: int := 8

  /** The example seed is accepted; a tap out of range or a non-binary seed is not. */
  lemma CreateExamples()
    ensures ValidSeed(ExampleSeed, ExampleTap)
    ensures !ValidSeed(ExampleSeed, ExampleTap * 1000)
    ensures !ValidSeed(ExampleSeed, -ExampleTap)
    ensures !ValidSeed("IShouldNotBeAbleToCreateALFSR", ExampleTap)
  {
    assert "IShouldNotBeAbleToCreateALFSR"[0] == 'I';
  }

  /** The register the example seed loads. */
  lemma ExampleRegister()
    ensures SeedBits(ExampleSeed) == [0, 1, 1, 0, 1, 0, 0, 0, 0, 1, 0]
  {
  }

  /** One operation on the example register yields 1 and the register 11010000101. */
  lemma OperationExample()
    ensures IsRegister(SeedBits(ExampleSeed), ExampleTap)
    ensures Feedback(SeedBits(ExampleSeed), ExampleTap) == 1
    ensures Step(SeedBits(ExampleSeed), ExampleTap) == [1, 1, 0, 1, 0, 0, 0, 0, 1, 0, 1]
  {
    ExampleRegister();
  }

  /** Generating 5 bits from the example register yields 25 and the register 00001011001. */
  lemma GenerationExample()
    ensures IsRegister(SeedBits(ExampleSeed), ExampleTap)
    ensures Generated(SeedBits(ExampleSeed), ExampleTap, 5) == 25
    ensures Run(SeedBits(ExampleSeed), ExampleTap, 5) == [0, 0, 0, 0, 1, 0, 1, 1, 0, 0, 1]
  {
    ExampleRegister();
    ExampleStream();
    ExampleValue();
  }

  /** The register before each of the five operations of the example, and after the last. */
  const R0: seq<nat> := [0, 1, 1, 0, 1, 0, 0, 0, 0, 1, 0]
  const R1: seq<nat> := [1, 1, 0, 1, 0, 0, 0, 0, 1, 0, 1]
  const R2: seq<nat> := [1, 0, 1, 0, 0, 0, 0, 1, 0, 1, 1]
  const R3: seq<nat> := [0, 1, 0, 0, 0, 0, 1, 0, 1, 1, 0]
  const R4: seq<nat> := [1, 0, 0, 0, 0, 1, 0, 1, 1, 0, 0]
  const R5: seq<nat> := [0, 0, 0, 0, 1, 0, 1, 1, 0, 0, 1]

  /** One operation at the front of a stream: its bit, then the stream of the register it leaves. */
  lemma StreamFront(r: seq<nat>, tap: nat, n: nat, b: nat, r': seq<nat>, bits: seq<nat>, last: seq<nat>)
    requires IsRegister(r, tap) && Feedback(r, tap) == b && Step(r, tap) == r'
    requires Keystream(r', tap, n) == bits && Run(r', tap, n) == last
    ensures Keystream(r, tap, n + 1) == [b] + bits && Run(r, tap, n + 1) == last
  {
  }

  lemma Step1() ensures IsRegister(R0, 8) && Feedback(R0, 8) == 1 && Step(R0, 8) == R1 { }
  lemma Step2() ensures IsRegister(R1, 8) && Feedback(R1, 8) == 1 && Step(R1, 8) == R2 { }
  lemma Step3() ensures IsRegister(R2, 8) && Feedback(R2, 8) == 0 && Step(R2, 8) == R3 { }
  lemma Step4() ensures IsRegister(R3, 8) && Feedback(R3, 8) == 0 && Step(R3, 8) == R4 { }
  lemma Step5() ensures IsRegister(R4, 8) && Feedback(R4, 8) == 1 && Step(R4, 8) == R5 { }

  /** The five feedback bits of the example: 1, 1, 0, 0, 1. */
  lemma ExampleStream()
    ensures IsRegister(R0, 8)
    ensures Keystream(R0, 8, 5) == [1, 1, 0, 0, 1] && Run(R0, 8, 5) == R5
  {
    Step1(); Step2(); Step3(); Step4(); Step5();
    StreamFront(R4, 8, 0, 1, R5, [], R5);
    assert [1 as nat] + [] == [1];
    StreamBits();
    StreamFront(R3, 8, 1, 0, R4, [1], R5);
    StreamFront(R2, 8, 2, 0, R3, [0, 1], R5);
    StreamFront(R1, 8, 3, 1, R2, [0, 0, 1], R5);
    StreamFront(R0, 8, 4, 1, R1, [1, 0, 0, 1], R5);
  }

  /** The example's stream, one bit in front at a time. */
  lemma StreamBits()
    ensures [0 as nat] + [1] == [0, 1] && [0 as nat] + [0, 1] == [0, 0, 1]
    ensures [1 as nat] + [0, 0, 1] == [1, 0, 0, 1] && [1 as nat] + [1, 0, 0, 1] == [1, 1, 0, 0, 1]
  {
  }

  /** 11001 in binary is 25. */
  lemma ExampleValue()
    ensures BitsValue([1, 1, 0, 0, 1]) == 25
  {
    assert [1, 1, 0, 0, 1][..4] == [1, 1, 0, 0];
    assert [1, 1, 0, 0][..3] == [1, 1, 0];
    assert [1, 1, 0][..2] == [1, 1];
    assert [1, 1][..1] == [1];
    assert [1][..0] == [];
  }

  /** The example register prints back as the seed. */
  lemma ToStringExample()
    ensures BitString(SeedBits(ExampleSeed)) == ExampleSeed
  {
    SeedRoundTrip(ExampleSeed, ExampleTap);
  }

  /** Two registers created from the same seed and tap generate the same number. */
  method Deterministic(seed: string, tap: int, k: nat) returns (v1: nat, v2: nat)
    requires ValidSeed(seed, tap) && k < U32
    ensures v1 == v2
  {
    var l1 := Lfsr.Create(seed, tap);
    var l2 := Lfsr.Create(seed, tap);
    v1 := l1.Generation(k);
    v2 := l2.Generation(k);
  }

  /**
   * Generating a + b bits at once gives the a-bit number shifted left by b bits
   * plus the next b-bit number, in 32-bit arithmetic.
   */
  method SplitGeneration(seed: string, tap: int, a: nat, b: nat) returns (whole: nat, first: nat, second: nat)
    requires ValidSeed(seed, tap) && a + b < U32
    ensures whole == (first * Pow2(b) + second) % U32
  {
    var l1 := Lfsr.Create(seed, tap);
    var l2 := Lfsr.Create(seed, tap);
    whole := l1.Generation(a + b);
    first := l2.Generation(a);
    second := l2.Generation(b);
    GeneratedAdd(SeedBits(seed), tap, a, b);
  }
}
