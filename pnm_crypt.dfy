/**
 * pnm_file_encryption, as a function of the image and of the register the
 * LFSR starts from. Every sample, row after row, is xor-ed with the next
 * number the LFSR generates 32 bits at a time; for a graymap or a pixmap the
 * maximum value then becomes the largest low 16 bits of an encrypted sample.
 * Running the same encryption again from the same register decrypts.
 */
module PnmCrypt {
  import opened Bits
  import opened LfsrEngine
  import opened PnmImage

  /** C's ^ on two unsigned ints: xor-ing the result with the key gives the value back. */
  function Xor32(a: uint32, b: uint32): (c: uint32)
    ensures Xor(c, b) == a
  {
    Pow2Of32();
    XorBound(a, b, 32);
    XorInvolutive(a, b);
    Xor(a, b)
  }

  /** The key of the i-th sample: bits 32 i to 32 i + 31 of the key stream, read as a number. */
  function KeyWord(r: seq<nat>, tap: nat, i: nat): (w: uint32)
    requires IsRegister(r, tap)
  {
    var block := Keystream(r, tap, 32 * i + 32)[32 * i..];
    BitsValueBound(block);
    Pow2Of32();
    BitsValue(block)
  }

  /** The i-th key is what generation(lfsr, 32) returns after i earlier calls. */
  lemma KeyWordGenerated(r: seq<nat>, tap: nat, i: nat)
    requires IsRegister(r, tap)
    ensures KeyWord(r, tap, i) == Generated(Run(r, tap, 32 * i), tap, 32)
  {
    KeystreamAdd(r, tap, 32 * i, 32);
    var head := Keystream(r, tap, 32 * i);
    var block := Keystream(Run(r, tap, 32 * i), tap, 32);
    assert (head + block)[32 * i..] == block;
    GeneratedBound(Run(r, tap, 32 * i), tap, 32);
  }

  /** The samples, each xor-ed with its key. */
  function EncryptPixels(pixels: seq<uint32>, r: seq<nat>, tap: nat): (e: seq<uint32>)
    requires IsRegister(r, tap)
    ensures |e| == |pixels|
  {
    seq(|pixels|, i requires 0 <= i < |pixels| => Xor32(pixels[i], KeyWord(r, tap, i)))
  }

  /** Every encrypted sample, xor-ed with its key, gives the sample back. */
  lemma EncryptPixelsInverts(pixels: seq<uint32>, r: seq<nat>, tap: nat)
    requires IsRegister(r, tap)
    ensures forall i :: 0 <= i < |pixels| ==> Xor(EncryptPixels(pixels, r, tap)[i], KeyWord(r, tap, i)) == pixels[i]
  {
  }

  /**
   * The value the encryption loop leaves in its unsigned short maxValue: the
   * largest low 16 bits of a sample, or 0 when there is none.
   */
  function MaxLow16(s: seq<uint32>): (m: nat)
    ensures m < U16
    ensures forall k :: 0 <= k < |s| ==> s[k] % U16 <= m
    ensures m == 0 || exists k :: 0 <= k < |s| && s[k] % U16 == m
  {
    if s == [] then 0
    else
      var front := s[..|s| - 1];
      var m := MaxLow16(front);
      var low := s[|s| - 1] % U16;
      assert forall k :: 0 <= k < |s| - 1 ==> s[k] == front[k];
      if low > m then low else m
  }

  /** One more sample: the running maximum of the encryption loop. */
  lemma MaxLow16Prefix(s: seq<uint32>, k: nat)
    requires k < |s|
    ensures MaxLow16(s[..k + 1]) == if s[k] % U16 > MaxLow16(s[..k]) then s[k] % U16 else MaxLow16(s[..k])
  {
    assert s[..k + 1][..k] == s[..k];
  }

  /** pnm_file_encryption on an image, with the LFSR's register when it is called. */
  function EncryptImage(img: Image, r: seq<nat>, tap: nat): (e: Image)
    requires IsRegister(r, tap)
    ensures e.magic == img.magic && e.columns == img.columns && e.lines == img.lines
    ensures WellFormed(img) ==> WellFormed(e)
    ensures e.pixels == EncryptPixels(img.pixels, r, tap)
    ensures !HasMaxValue(img.magic) ==> e.maxValue == img.maxValue
    ensures HasMaxValue(img.magic) ==> e.maxValue < U16
    ensures HasMaxValue(img.magic) ==> forall k :: 0 <= k < |e.pixels| ==> e.pixels[k] % U16 <= e.maxValue
    ensures HasMaxValue(img.magic) ==> e.maxValue == 0 || exists k :: 0 <= k < |e.pixels| && e.pixels[k] % U16 == e.maxValue
    ensures HasMaxValue(img.magic) ==> e.maxValue == MaxLow16(e.pixels)
  {
    var pixels := EncryptPixels(img.pixels, r, tap);
    img.(pixels := pixels, maxValue := if HasMaxValue(img.magic) then MaxLow16(pixels) else img.maxValue)
  }

  /**
   * One step of the encryption loop, for the samples e it is to leave: the
   * samples before k are done, the others untouched, and sample k gets e[k].
   */
  lemma EncryptStep(pixels: seq<uint32>, e: seq<uint32>, before: seq<uint32>, k: nat, after: seq<uint32>)
    requires k < |pixels| == |before| == |e|
    requires before[..k] == e[..k] && before[k..] == pixels[k..]
    requires after == before[k := e[k]]
    ensures after[..k + 1] == e[..k + 1] && after[k + 1..] == pixels[k + 1..]
  {
    assert forall i :: 0 <= i < k ==> after[i] == before[..k][i];
    assert forall i :: k + 1 <= i < |pixels| ==> after[i] == before[k..][i - k];
  }

  /** The register after the keys of i samples: 32 operations per key. */
  function AfterKeys(r: seq<nat>, tap: nat, i: nat): (r': seq<nat>)
    requires IsRegister(r, tap)
    ensures IsRegister(r', tap)
  {
    Run(r, tap, 32 * i)
  }

  /** One more key: 32 more operations. */
  lemma AfterKeysNext(r: seq<nat>, tap: nat, k: nat)
    requires IsRegister(r, tap)
    ensures AfterKeys(r, tap, k + 1) == Run(AfterKeys(r, tap, k), tap, 32)
  {
    RunAdd(r, tap, 32 * k, 32);
    assert 32 * (k + 1) == 32 * k + 32;
  }

  /**
   * One turn of the encryption loop on sample k: the register has run 32
   * steps per earlier sample, and generation(lfsr, 32) gives sample k's key.
   */
  lemma EncryptCellStep(pixels: seq<uint32>, r: seq<nat>, tap: nat, k: nat,
                        before: seq<uint32>, after: seq<uint32>, reg: seq<nat>, reg': seq<nat>)
    requires IsRegister(r, tap) && k < |pixels| == |before|
    requires reg == AfterKeys(r, tap, k) && reg' == Run(reg, tap, 32)
    requires before[..k] == EncryptPixels(pixels, r, tap)[..k] && before[k..] == pixels[k..]
    requires after == before[k := Xor32(before[k], Generated(reg, tap, 32))]
    ensures reg' == AfterKeys(r, tap, k + 1)
    ensures after[..k + 1] == EncryptPixels(pixels, r, tap)[..k + 1] && after[k + 1..] == pixels[k + 1..]
  {
    AfterKeysNext(r, tap, k);
    KeyWordGenerated(r, tap, k);
    var e := EncryptPixels(pixels, r, tap);
    assert before[k] == before[k..][0] == pixels[k];
    assert after == before[k := e[k]];
    EncryptStep(pixels, e, before, k, after);
  }

  /** The encrypted image, given its samples and their maximum. */
  lemma EncryptImageOf(img: Image, r: seq<nat>, tap: nat, e: seq<uint32>, max: nat)
    requires IsRegister(r, tap)
    requires e == EncryptPixels(img.pixels, r, tap) && max == MaxLow16(e)
    ensures EncryptImage(img, r, tap) == img.(pixels := e, maxValue := if HasMaxValue(img.magic) then max else img.maxValue)
  {
  }

  /** Encrypting twice from the same register gives the samples back. */
  lemma EncryptPixelsTwice(pixels: seq<uint32>, r: seq<nat>, tap: nat)
    requires IsRegister(r, tap)
    ensures EncryptPixels(EncryptPixels(pixels, r, tap), r, tap) == pixels
  {
    var e := EncryptPixels(pixels, r, tap);
    var d := EncryptPixels(e, r, tap);
    forall i | 0 <= i < |pixels|
      ensures d[i] == pixels[i]
    {
      var key := KeyWord(r, tap, i);
      XorInvolutive(pixels[i], key);
      assert e[i] == Xor(pixels[i], key);
    }
  }

  /**
   * Decryption: the program decrypts by encrypting again from the same seed.
   * The samples come back; the maximum value of a graymap or pixmap becomes
   * the largest low 16 bits of a sample, not necessarily the one the image had.
   */
  lemma DecryptRestores(img: Image, r: seq<nat>, tap: nat)
    requires IsRegister(r, tap)
    ensures EncryptImage(EncryptImage(img, r, tap), r, tap).pixels == img.pixels
    ensures HasMaxValue(img.magic) ==> EncryptImage(EncryptImage(img, r, tap), r, tap).maxValue == MaxLow16(img.pixels)
    ensures !HasMaxValue(img.magic) ==> EncryptImage(EncryptImage(img, r, tap), r, tap) == img
  {
    EncryptPixelsTwice(img.pixels, r, tap);
  }
}
