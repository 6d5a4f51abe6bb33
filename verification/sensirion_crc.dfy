/**
 * The Sensirion CRC-8 of components/sensirion_common/sensirion_common.c:
 * polynomial x^8 + x^5 + x^4 + 1 (0x31), initial value 0xFF, no final
 * XOR, over the two bytes of a 16-bit word, low byte first.
 */
module SensirionCrc {
  const Initialization: bv8 := 0xFF
  const Polynomial: bv8 := 0x31
  const FinalXor: bv8 := 0
  /** sizeof(uint16_t) */
  const WordBytes: nat := 2
  /** Steps of the inner loop per byte. */
  const ByteBits: nat := 8

  /** One step of the inner loop: shift left in 8 bits, XOR the polynomial if the MSB was set. */
  function Step(crc: bv8): bv8 {
    if crc & 0x80 != 0 then (crc << 1) ^ Polynomial else crc << 1
  }

  /** `n` steps of the inner loop. */
  function Shifted(crc: bv8, n: nat): bv8 {
    if n == 0 then crc else Step(Shifted(crc, n - 1))
  }

  /** One pass of the outer loop: XOR the byte in, then eight steps. */
  function AddByte(crc: bv8, b: bv8): bv8 {
    Shifted(crc ^ b, ByteBits)
  }

  /** The register after feeding `bytes` in order, starting from `crc`. */
  function Register(crc: bv8, bytes: seq<bv8>): bv8
    decreases |bytes|
  {
    if bytes == [] then crc else Register(AddByte(crc, bytes[0]), bytes[1..])
  }

  /** `word & 0xff` narrowed to the 8-bit register. */
  function LowByte(word: bv16): bv8 {
    (word & 0xFF) as bv8
  }

  /** The bytes `n` passes of the outer loop see: the low byte, then the word shifted right by 8. */
  function BytesOf(word: bv16, n: nat): (r: seq<bv8>)
    ensures |r| == n
  {
    if n == 0 then [] else [LowByte(word)] + BytesOf(word >> 8, n - 1)
  }

  /** The byte stream the routine consumes for a word. */
  function WordStream(word: bv16): seq<bv8> {
    BytesOf(word, WordBytes)
  }

  /** The CRC of a byte stream as the routine defines it. */
  function Crc(bytes: seq<bv8>): bv8 {
    Register(Initialization, bytes) ^ FinalXor
  }

  /** The inner loop of sensirion_common_calculate_crc8_ (lines 15-20). */
  method ShiftByte(fed: bv8) returns (crc: bv8)
    ensures crc == Shifted(fed, ByteBits)
  {
    crc := fed;
    var j := 0;
    while j < ByteBits
      invariant 0 <= j <= ByteBits && crc == Shifted(fed, j)
    {
      var newCrc := crc << 1;
      if crc & 0x80 != 0 {
        newCrc := newCrc ^ Polynomial;
      }
      crc := newCrc;
      j := j + 1;
    }
  }

  /**
   * sensirion_common_calculate_crc8_: the outer loop XORs the low byte of
   * the word in and shifts the word right by a byte per pass.
   */
  method CalculateCrc8(word: bv16) returns (crc: bv8)
    ensures crc == Crc(WordStream(word))
  {
    crc := Initialization;
    var w := word;
    var i := 0;
    while i < WordBytes
      invariant 0 <= i <= WordBytes
      invariant Register(crc, BytesOf(w, WordBytes - i)) == Register(Initialization, WordStream(word))
    {
      ghost var before := crc;
      crc := crc ^ LowByte(w);
      crc := ShiftByte(crc);
      RegisterFirst(before, w, WordBytes - i);
      i := i + 1;
      w := w >> 8;
    }
    crc := crc ^ FinalXor;
  }

  lemma RegisterFirst(crc: bv8, word: bv16, n: nat)
    requires n > 0
    ensures Register(crc, BytesOf(word, n)) == Register(AddByte(crc, LowByte(word)), BytesOf(word >> 8, n - 1))
  {
    assert BytesOf(word, n)[0] == LowByte(word);
    assert BytesOf(word, n)[1..] == BytesOf(word >> 8, n - 1);
  }

  /** The word is consumed low byte first. */
  lemma WordStreamOrder(word: bv16)
    ensures WordStream(word) == [LowByte(word), LowByte(word >> 8)]
  {
    assert BytesOf(word >> 8, 1) == [LowByte(word >> 8)];
  }

  /** The comment's CRC8(0xBEEF) = 0x92 holds for the byte stream 0xBE, 0xEF ... */
  lemma CrcOfBeefStream()
    ensures Crc([0xBE, 0xEF]) == 0x92
    ensures Crc(WordStream(0xEFBE)) == 0x92
  {
    WordStreamOrder(0xEFBE);
    RegisterOfPair(Initialization, [0xBE, 0xEF]);
    EightSteps(0x41);
    EightSteps(0xE3);
  }

  /** ... which the routine receives as the word 0xEFBE; the word 0xBEEF gives 0xCE. */
  lemma CrcOfBeefWord()
    ensures Crc(WordStream(0xBEEF)) == 0xCE
  {
    WordStreamOrder(0xBEEF);
    RegisterOfPair(Initialization, [0xEF, 0xBE]);
    EightSteps(0x10);
    EightSteps(0xFD);
  }

  lemma EightSteps(crc: bv8)
    ensures Shifted(crc, ByteBits) == Step(Step(Step(Step(Step(Step(Step(Step(crc))))))))
  {
    assert Shifted(crc, 1) == Step(crc);
    assert Shifted(crc, 2) == Step(Shifted(crc, 1));
    assert Shifted(crc, 3) == Step(Shifted(crc, 2));
    assert Shifted(crc, 4) == Step(Shifted(crc, 3));
    assert Shifted(crc, 5) == Step(Shifted(crc, 4));
    assert Shifted(crc, 6) == Step(Shifted(crc, 5));
    assert Shifted(crc, 7) == Step(Shifted(crc, 6));
  }

  /** The step is linear over GF(2) ... */
  lemma StepLinear(a: bv8, b: bv8)
    ensures Step(a ^ b) == Step(a) ^ Step(b)
  {
    XorDistributes(a, b);
    if a & 0x80 != 0 {
      if b & 0x80 != 0 {
        assert (a ^ b) & 0x80 == 0;
      } else {
        assert (a ^ b) & 0x80 != 0;
      }
    } else {
      if b & 0x80 != 0 {
        assert (a ^ b) & 0x80 != 0;
      } else {
        assert (a ^ b) & 0x80 == 0;
      }
    }
  }

  lemma XorDistributes(a: bv8, b: bv8)
    ensures (a ^ b) << 1 == (a << 1) ^ (b << 1)
    ensures (a ^ b) & 0x80 == (a & 0x80) ^ (b & 0x80)
  {
  }

  /** ... and one-to-one, since the polynomial has a constant term. */
  lemma StepInjective(a: bv8, b: bv8)
    ensures Step(a) == Step(b) ==> a == b
  {
  }

  lemma {:induction false} ShiftedLinear(a: bv8, b: bv8, n: nat)
    ensures Shifted(a ^ b, n) == Shifted(a, n) ^ Shifted(b, n)
  {
    XorShifted(a, b, a ^ b, n);
  }

  /** ShiftedLinear with the XOR of the two registers named `c`. */
  lemma {:induction false} XorShifted(a: bv8, b: bv8, c: bv8, n: nat)
    requires c == a ^ b
    ensures Shifted(c, n) == Shifted(a, n) ^ Shifted(b, n)
  {
    if n > 0 {
      var m := n - 1;
      XorShifted(a, b, c, m);
      ShiftedNext(a, m);
      ShiftedNext(b, m);
      ShiftedNext(c, m);
      StepLinear(Shifted(a, m), Shifted(b, m));
    }
  }

  /** One more step. */
  lemma ShiftedNext(x: bv8, m: nat)
    ensures Shifted(x, m + 1) == Step(Shifted(x, m))
  {
  }

  lemma {:induction false} ShiftedInjective(a: bv8, b: bv8, n: nat)
    requires Shifted(a, n) == Shifted(b, n)
    ensures a == b
  {
    if n > 0 {
      StepInjective(Shifted(a, n - 1), Shifted(b, n - 1));
      ShiftedInjective(a, b, n - 1);
    }
  }

  lemma {:induction false} ZeroShifted(n: nat)
    ensures Shifted(0, n) == 0
  {
    if n > 0 {
      ZeroShifted(n - 1);
    }
  }

  /**
   * Feeding the register's own value after the data leaves it zero: the
   * check a receiver of a Sensirion word and its CRC byte performs.
   */
  lemma {:induction false} CheckByteZeroes(crc: bv8, bytes: seq<bv8>)
    ensures Register(crc, bytes + [Register(crc, bytes)]) == 0
    decreases |bytes|
  {
    if bytes == [] {
      assert [] + [crc] == [crc];
      ZeroShifted(ByteBits);
    } else {
      assert (bytes + [Register(crc, bytes)])[1..] == bytes[1..] + [Register(crc, bytes)];
      CheckByteZeroes(AddByte(crc, bytes[0]), bytes[1..]);
    }
  }

  lemma WordCheckZeroes(word: bv16)
    ensures Register(Initialization, WordStream(word) + [Crc(WordStream(word))]) == 0
  {
    CheckByteZeroes(Initialization, WordStream(word));
  }

  /** Registers fed the same way agree only if what was fed agrees. */
  lemma AddByteInjective(c1: bv8, c2: bv8, b1: bv8, b2: bv8)
    requires AddByte(c1, b1) == AddByte(c2, b2)
    ensures c1 ^ b1 == c2 ^ b2
  {
    ShiftedInjective(c1 ^ b1, c2 ^ b2, ByteBits);
  }

  /** Two streams of two bytes that agree in one byte and differ in the other have different CRCs. */
  lemma SingleByteErrorDetected(s1: seq<bv8>, s2: seq<bv8>)
    requires |s1| == |s2| == WordBytes
    requires s1[0] == s2[0] || s1[1] == s2[1]
    requires Crc(s1) == Crc(s2)
    ensures s1 == s2
  {
    var r1, r2 := AddByte(Initialization, s1[0]), AddByte(Initialization, s2[0]);
    RegisterOfPair(Initialization, s1);
    RegisterOfPair(Initialization, s2);
    AddByteInjective(r1, r2, s1[1], s2[1]);
    if s1[0] == s2[0] {
      assert s1[1] == s2[1];
    } else {
      assert r1 == r2;
      AddByteInjective(Initialization, Initialization, s1[0], s2[0]);
    }
  }

  lemma RegisterOfPair(crc: bv8, s: seq<bv8>)
    requires |s| == 2
    ensures Register(crc, s) == AddByte(AddByte(crc, s[0]), s[1])
  {
    var c1 := AddByte(crc, s[0]);
    assert Register(crc, s) == Register(c1, s[1..]);
    assert Register(c1, s[1..]) == Register(AddByte(c1, s[1]), s[1..][1..]);
    assert s[1..][1..] == [];
  }
}
