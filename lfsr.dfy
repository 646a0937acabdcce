/**
 * The linear feedback shift register that produces the key stream.
 *
 * The register is a row of bits r[0..n-1] and a tap t with 0 <= t < n. One
 * operation computes the feedback bit r[0] XOR r[n-1-t] (the tap counts from
 * the right), shifts every bit one cell to the left and stores the feedback
 * bit in the last cell. A generation of k bits runs k operations and reads
 * their feedback bits as a k-bit unsigned number, first bit most significant,
 * in 32-bit unsigned arithmetic.
 *
 * The first half of the module specifies all this on sequences; the class
 * Lfsr is the mutable register of the program, proved against it.
 */
module LfsrEngine {
  import opened Bits

  /** Every cell holds 0 or 1. */
  predicate IsBits(r: seq<nat>)
  {
    forall i :: 0 <= i < |r| ==> r[i] <= 1
  }

  /** A register the engine can run: bits, and a tap inside it. */
  predicate IsRegister(r: seq<nat>, tap: nat)
  {
    tap < |r| && IsBits(r)
  }

  /** What create_lfsr accepts: a tap inside the seed, and a seed made of '0' and '1'. */
  predicate ValidSeed(seed: string, tap: int)
  {
    && 0 <= tap < |seed|
    && forall i :: 0 <= i < |seed| ==> seed[i] == '0' || seed[i] == '1'
  }

  /** The register a valid seed loads: the digit values, left to right. */
  function SeedBits(seed: string): (r: seq<nat>)
    ensures |r| == |seed|
  {
    seq(|seed|, i requires 0 <= i < |seed| => if seed[i] == '1' then 1 else 0)
  }

  /** The feedback bit: the leftmost cell XOR the cell tap places from the right. */
  function Feedback(r: seq<nat>, tap: nat): (b: nat)
    requires IsRegister(r, tap)
    ensures b <= 1
    ensures b == 1 <==> r[0] != r[|r| - 1 - tap]
  {
    XorOnBits(r[0], r[|r| - 1 - tap]);
    Xor(r[0], r[|r| - 1 - tap])
  }

  /** One operation: shift left by one cell and store the feedback bit last. */
  function Step(r: seq<nat>, tap: nat): (r': seq<nat>)
    requires IsRegister(r, tap)
    ensures IsRegister(r', tap) && |r'| == |r|
    ensures forall i :: 0 <= i < |r| - 1 ==> r'[i] == r[i + 1]
    ensures r'[|r| - 1] == Feedback(r, tap)
  {
    r[1..] + [Feedback(r, tap)]
  }

  /** The register after n operations. */
  function Run(r: seq<nat>, tap: nat, n: nat): (r': seq<nat>)
    requires IsRegister(r, tap)
    ensures IsRegister(r', tap) && |r'| == |r|
    decreases n
  {
    if n == 0 then r else Run(Step(r, tap), tap, n - 1)
  }

  /** The feedback bits of the next n operations, in the order they are produced. */
  function Keystream(r: seq<nat>, tap: nat, n: nat): (bits: seq<nat>)
    requires IsRegister(r, tap)
    ensures |bits| == n && IsBits(bits)
    decreases n
  {
    if n == 0 then [] else [Feedback(r, tap)] + Keystream(Step(r, tap), tap, n - 1)
  }

  /** A bit sequence read as an unsigned number, first bit most significant. */
  function BitsValue(bits: seq<nat>): nat
  {
    if bits == [] then 0 else 2 * BitsValue(bits[..|bits| - 1]) + bits[|bits| - 1]
  }

  /** The number generation returns: the k-bit key stream in 32-bit unsigned arithmetic. */
  function Generated(r: seq<nat>, tap: nat, k: nat): nat
    requires IsRegister(r, tap)
  {
    BitsValue(Keystream(r, tap, k)) % U32
  }

  /** The register written as a '0'/'1' string. */
  function BitString(r: seq<nat>): (s: string)
    ensures |s| == |r|
  {
    seq(|r|, i requires 0 <= i < |r| => if r[i] == 1 then '1' else '0')
  }

  /** A valid seed loads a register the engine can run. */
  lemma SeedRegister(seed: string, tap: int)
    requires ValidSeed(seed, tap)
    ensures IsRegister(SeedBits(seed), tap)
  {
  }

  /** to_string of a freshly created register gives the seed back. */
  lemma SeedRoundTrip(seed: string, tap: int)
    requires ValidSeed(seed, tap)
    ensures BitString(SeedBits(seed)) == seed
  {
    var s := BitString(SeedBits(seed));
    forall i | 0 <= i < |seed|
      ensures s[i] == seed[i]
    {
    }
  }

  /** Running a + b operations is running a, then b. */
  lemma {:induction false} RunAdd(r: seq<nat>, tap: nat, a: nat, b: nat)
    requires IsRegister(r, tap)
    ensures Run(r, tap, a + b) == Run(Run(r, tap, a), tap, b)
    decreases a
  {
    if a > 0 {
      RunAdd(Step(r, tap), tap, a - 1, b);
    }
  }

  /** The key stream of a + b operations is the stream of a followed by the stream of the next b. */
  lemma {:induction false} KeystreamAdd(r: seq<nat>, tap: nat, a: nat, b: nat)
    requires IsRegister(r, tap)
    ensures Keystream(r, tap, a + b) == Keystream(r, tap, a) + Keystream(Run(r, tap, a), tap, b)
    decreases a
  {
    if a > 0 {
      KeystreamAdd(Step(r, tap), tap, a - 1, b);
      assert a + b - 1 == (a - 1) + b;
    }
  }

  /** One more operation appends its feedback bit to the stream. */
  lemma KeystreamSnoc(r: seq<nat>, tap: nat, n: nat)
    requires IsRegister(r, tap)
    ensures Keystream(r, tap, n + 1) == Keystream(r, tap, n) + [Feedback(Run(r, tap, n), tap)]
    ensures Run(r, tap, n + 1) == Step(Run(r, tap, n), tap)
  {
    KeystreamAdd(r, tap, n, 1);
    RunAdd(r, tap, n, 1);
  }

  /** Reading x followed by y is reading x, shifted left by |y| bits, plus y. */
  lemma {:induction false} BitsValueAppend(x: seq<nat>, y: seq<nat>)
    ensures BitsValue(x + y) == BitsValue(x) * Pow2(|y|) + BitsValue(y)
    decreases |y|
  {
    if y == [] {
      assert x + y == x;
    } else {
      var y' := y[..|y| - 1];
      assert (x + y)[..|x + y| - 1] == x + y';
      BitsValueAppend(x, y');
      var vx, p, vy, b := BitsValue(x), Pow2(|y'|), BitsValue(y'), y[|y| - 1];
      assert BitsValue(x + y) == 2 * (vx * p + vy) + b;
      assert BitsValue(y) == 2 * vy + b && Pow2(|y|) == 2 * p;
      ShiftLeftOnce(vx, p, vy, b);
    }
  }

  /** Doubling x shifted by p bits, plus y, then adding b: x shifted by one bit more. */
  lemma ShiftLeftOnce(x: nat, p: nat, y: nat, b: nat)
    ensures 2 * (x * p + y) + b == x * (2 * p) + (2 * y + b)
  {
  }

  /** k bits read as a number stay below 2^k. */
  lemma {:induction false} BitsValueBound(bits: seq<nat>)
    requires IsBits(bits)
    ensures BitsValue(bits) < Pow2(|bits|)
    decreases |bits|
  {
    if bits != [] {
      BitsValueBound(bits[..|bits| - 1]);
    }
  }

  /** Up to 32 bits never wrap: generation returns exactly the bits read as a number, below 2^k. */
  lemma GeneratedBound(r: seq<nat>, tap: nat, k: nat)
    requires IsRegister(r, tap) && k <= 32
    ensures Generated(r, tap, k) == BitsValue(Keystream(r, tap, k))
    ensures Generated(r, tap, k) < Pow2(k)
  {
    var bits := Keystream(r, tap, k);
    BitsValueBound(bits);
    Pow2Of32();
    Pow2Add(k, 32 - k);
    MulAtLeast(Pow2(k), Pow2(32 - k));
    ModSmall(BitsValue(bits), U32);
  }

  /**
   * Generating a + b bits in one call equals generating a bits, then b more,
   * and joining the two numbers with a shift of b bits (in 32-bit arithmetic).
   */
  lemma GeneratedAdd(r: seq<nat>, tap: nat, a: nat, b: nat)
    requires IsRegister(r, tap)
    ensures Generated(r, tap, a + b)
         == (Generated(r, tap, a) * Pow2(b) + Generated(Run(r, tap, a), tap, b)) % U32
  {
    var x := Keystream(r, tap, a);
    var y := Keystream(Run(r, tap, a), tap, b);
    KeystreamAdd(r, tap, a, b);
    BitsValueAppend(x, y);
    ModMulAdd(BitsValue(x), Pow2(b), BitsValue(y), U32);
  }

  /**
   * One turn of generation's loop: doubling the value of the first i bits and
   * adding bit i + 1, in 32-bit arithmetic, gives the value of the first i + 1.
   */
  lemma GenerationStep(r: seq<nat>, tap: nat, i: nat, v: nat, b: nat)
    requires IsRegister(r, tap) && v == BitsValue(Keystream(r, tap, i)) % U32
    requires b == Feedback(Run(r, tap, i), tap)
    ensures (v * 2 + b) % U32 == BitsValue(Keystream(r, tap, i + 1)) % U32
    ensures Step(Run(r, tap, i), tap) == Run(r, tap, i + 1)
  {
    KeystreamSnoc(r, tap, i);
    var bits := Keystream(r, tap, i);
    var bits' := bits + [b];
    assert bits'[..|bits'| - 1] == bits;
    assert BitsValue(bits') == BitsValue(bits) * 2 + b;
    ModMulAdd(BitsValue(bits), 2, b, U32);
    ModSmall(b, U32);
  }

  /** The mutable register of the program: a bit array and its tap. */
  class Lfsr {
    const reg: array<nat>
    const tap: nat

    /** The register holds bits and the tap lies inside it. */
    ghost predicate Valid()
      reads this, reg
    {
      IsRegister(reg[..], tap)
    }

    /** Wraps an already loaded register. */
    constructor (cells: array<nat>, t: nat)
      requires IsRegister(cells[..], t)
      ensures reg == cells && tap == t && Valid()
    {
      reg := cells;
      tap := t;
    }

    /**
     * create_lfsr: rejects a tap outside the seed, then loads the seed cell by
     * cell and rejects it at the first character other than '0' or '1'.
     */
    static method Create(seed: string, tap: int) returns (l: Lfsr?)
      ensures l == null <==> !ValidSeed(seed, tap)
      ensures l != null ==> fresh(l) && fresh(l.reg) && l.Valid()
      ensures l != null ==> l.reg[..] == SeedBits(seed) && l.tap == tap
    {
      if tap < 0 || tap >= |seed| {
        return null;
      }
      var cells := new nat[|seed|];
      var i := 0;
      while i < |seed|
        invariant 0 <= i <= |seed|
        invariant forall j :: 0 <= j < i ==> seed[j] == '0' || seed[j] == '1'
        invariant forall j :: 0 <= j < i ==> cells[j] == SeedBits(seed)[j]
      {
        if seed[i] != '1' && seed[i] != '0' {
          return null;
        }
        cells[i] := seed[i] as int - '0' as int;
        i := i + 1;
      }
      assert cells[..] == SeedBits(seed);
      l := new Lfsr(cells, tap);
    }

    /** operation: returns the feedback bit and shifts it into the register. */
    method Operation() returns (b: nat)
      requires Valid()
      modifies reg
      ensures Valid()
      ensures b == Feedback(old(reg[..]), tap)
      ensures reg[..] == Step(old(reg[..]), tap)
    {
      ghost var r := reg[..];
      b := Xor(reg[0], reg[reg.Length - tap - 1]);
      var i := 0;
      while i < reg.Length - 1
        invariant 0 <= i <= reg.Length - 1
        invariant forall j :: 0 <= j < i ==> reg[j] == r[j + 1]
        invariant forall j :: i <= j < reg.Length ==> reg[j] == r[j]
      {
        reg[i] := reg[i + 1];
        i := i + 1;
      }
      reg[reg.Length - 1] := b;
      assert reg[..] == r[1..] + [b];
    }

    /**
     * generation: k operations, each doubling the value and adding the new
     * bit, with the wrap-around of a 32-bit unsigned int.
     */
    method Generation(k: nat) returns (v: nat)
      requires Valid() && k < U32
      modifies reg
      ensures Valid()
      ensures v == Generated(old(reg[..]), tap, k)
      ensures reg[..] == Run(old(reg[..]), tap, k)
    {
      ghost var r0 := reg[..];
      v := 0;
      var i := 0;
      while i < k
        invariant 0 <= i <= k && Valid()
        invariant reg[..] == Run(r0, tap, i)
        invariant v == BitsValue(Keystream(r0, tap, i)) % U32
      {
        var b := Operation();
        GenerationStep(r0, tap, i, v, b);
        v := (v * 2 + b) % U32;
        i := i + 1;
      }
    }

    /** get_register: the register array itself, not a copy. */
    method GetRegister() returns (r: array<nat>)
      ensures r == reg
    {
      return reg;
    }

    /** get_tap. */
    method GetTap() returns (t: nat)
      ensures t == tap
    {
      return tap;
    }

    /** to_string: one '0'/'1' character per cell. */
    method ToString() returns (s: string)
      requires Valid()
      ensures s == BitString(reg[..])
    {
      var chars := new char[reg.Length];
      var i := 0;
      while i < reg.Length
        invariant 0 <= i <= reg.Length
        invariant forall j :: 0 <= j < i ==> chars[j] == BitString(reg[..])[j]
      {
        chars[i] := (reg[i] + '0' as int) as char;
        i := i + 1;
      }
      s := chars[..];
    }
  }
}
