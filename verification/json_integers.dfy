/**
 * Properties of the integer conversion of json_expect_integer
 * (components/immjson/immjson.c): which numbers it accepts for a bit
 * width, and which bytes it stores for them.  Negative numbers are stored
 * as the magnitude with bit `bitwidth - 1` set (sign and magnitude), not
 * in two's complement; IntegerValueIntended is the two's-complement
 * conversion a caller reading the stored int8_t .. int64_t expects.
 */
module JsonIntegers {
  import opened Wrappers
  import opened JsonTypes
  import opened JsonValues

  /* Powers of two and little-endian bytes */

  lemma {:induction false} Pow2Add(a: nat, b: nat)
    ensures Pow2(a + b) == Pow2(a) * Pow2(b)
    decreases a
  {
    if a > 0 {
      Pow2Add(a - 1, b);
    }
  }

  lemma {:induction false} Pow2Monotone(a: nat, b: nat)
    requires a <= b
    ensures Pow2(a) <= Pow2(b)
    decreases b
  {
    if a < b {
      Pow2Monotone(a, b - 1);
    }
  }

  lemma Pow2Byte(n: nat)
    ensures Pow2(8 * n + 8) == 256 * Pow2(8 * n)
  {
    Pow2Add(8 * n, 8);
    assert Pow2(8) == 256;
  }

  /** JsonUintmax holds exactly the values below 2^64. */
  lemma Pow2Uintmax()
    ensures Pow2(UintmaxBits) == UintmaxLimit
  {
    var p8, p16, p32 := Pow2(8), Pow2(16), Pow2(32);
    assert p8 == 256;
    Pow2Add(8, 8);
    assert p16 == 0x1_0000;
    Pow2Add(16, 16);
    assert p32 == 0x1_0000_0000;
    Pow2Add(32, 32);
  }

  lemma DivBelowMultiple(p: nat, q: nat)
    requires p >= 1 && q >= 1
    ensures (p * q - 1) / q == p - 1
  {
    assert q * (p - 1) == q * p - q;
    ModUnique(p * q - 1, q, p - 1, q - 1);
  }

  /** max_val is the largest value of the bit width, one bit less for signed targets. */
  lemma MaxValIs(isSigned: bool, bitwidth: nat)
    requires 1 <= bitwidth <= UintmaxBits
    ensures MaxVal(isSigned, bitwidth) == Pow2(bitwidth - (if isSigned then 1 else 0)) - 1
  {
    var magnitude := bitwidth - (if isSigned then 1 else 0);
    var shift := UintmaxBits - bitwidth + (if isSigned then 1 else 0);
    Pow2Add(magnitude, shift);
    Pow2Uintmax();
    DivBelowMultiple(Pow2(magnitude), Pow2(shift));
  }

  lemma ModUnique(v: nat, m: nat, a: nat, rem: nat)
    requires m >= 1 && v == m * a + rem && rem < m
    ensures v % m == rem && v / m == a
  {
    var q := v / m;
    var r := v % m;
    assert m * a - m * q == r - rem;
    assert m * (a - q) == m * a - m * q;
    MulBound(m, a - q);
  }

  lemma MulBound(m: int, k: int)
    requires m >= 1
    ensures k >= 1 ==> m * k >= m
    ensures k <= -1 ==> m * k <= -m
  {
  }

  lemma ModSplit(v: nat, p: nat)
    requires p >= 1
    ensures v % (256 * p) == v % 256 + 256 * ((v / 256) % p)
  {
    var q := v / 256;
    var a := q / p;
    var b := q % p;
    assert v == 256 * q + v % 256;
    assert q == p * a + b;
    assert v == (256 * p) * a + (256 * b + v % 256);
    ModUnique(v, 256 * p, a, 256 * b + v % 256);
  }

  /** Storing `n` little-endian bytes keeps the value modulo 2^(8n). */
  lemma {:induction false} LittleEndianValue(v: nat, n: nat)
    ensures FromLittleEndian(LittleEndian(v, n)) == v % Pow2(8 * n)
    decreases n
  {
    if n > 0 {
      var bs := LittleEndian(v, n);
      assert bs[0] == v % 256 && bs[1..] == LittleEndian(v / 256, n - 1);
      LittleEndianValue(v / 256, n - 1);
      Pow2Byte(n - 1);
      ModSplit(v, Pow2(8 * (n - 1)));
    }
  }

  /** Little-endian bytes hold a value below 2^(8n) ... */
  lemma {:induction false} FromLittleEndianBound(bs: seq<Byte>)
    ensures FromLittleEndian(bs) < Pow2(8 * |bs|)
    decreases |bs|
  {
    if bs != [] {
      FromLittleEndianBound(bs[1..]);
      Pow2Byte(|bs| - 1);
    }
  }

  /** ... and writing that value back gives the same bytes. */
  lemma {:induction false} LittleEndianOfValue(bs: seq<Byte>)
    ensures LittleEndian(FromLittleEndian(bs), |bs|) == bs
    decreases |bs|
  {
    if bs != [] {
      var v := FromLittleEndian(bs);
      var rest := FromLittleEndian(bs[1..]);
      ModUnique(v, 256, rest, bs[0]);
      LittleEndianOfValue(bs[1..]);
    }
  }

  /* What json_expect_integer accepts and stores */

  /** The store widths json_expect_integer supports: 1, 2, 4 and 8 bytes. */
  predicate SupportedWidth(bitwidth: nat)
    requires bitwidth >= 1
  {
    var width := IntegerBytes(bitwidth);
    width == 1 || width == 2 || width == 4 || width == 8
  }

  function SignBit(isSigned: bool): nat {
    if isSigned then 1 else 0
  }

  /**
   * A number is converted exactly when it has neither fraction nor
   * exponent, is not negative for an unsigned target, its magnitude fits
   * the width (one more for negative numbers), and the width is supported.
   */
  lemma IntegerAccepted(num: JsonNumber, isSigned: bool, bitwidth: nat)
    requires 1 <= bitwidth <= UintmaxBits
    ensures IntegerValue(num, isSigned, bitwidth).Some? <==>
              num.pointPos == 0 && num.exponent == 0 && (num.negative ==> isSigned)
              && num.digits < Pow2(bitwidth - SignBit(isSigned)) + (if num.negative then 1 else 0)
              && SupportedWidth(bitwidth)
  {
    if !num.negative || isSigned {
      GuardBound(isSigned, bitwidth, num.negative);
    }
  }

  /** The guard of json_expect_integer, max_val plus one for a negative number, without wrap-around. */
  lemma GuardBound(isSigned: bool, bitwidth: nat, negative: bool)
    requires 1 <= bitwidth <= UintmaxBits && (negative ==> isSigned)
    ensures (MaxVal(isSigned, bitwidth) + (if negative then 1 else 0)) % UintmaxLimit
            == Pow2(bitwidth - SignBit(isSigned)) - 1 + (if negative then 1 else 0)
  {
    MaxValIs(isSigned, bitwidth);
    var magnitude := bitwidth - SignBit(isSigned);
    Pow2WithinUintmax(magnitude);
    var bound := MaxVal(isSigned, bitwidth) + (if negative then 1 else 0);
    assert bound == Pow2(magnitude) - 1 + (if negative then 1 else 0) < UintmaxLimit;
    ModBelow(bound, UintmaxLimit);
  }

  lemma Pow2WithinUintmax(n: nat)
    requires n <= UintmaxBits
    ensures Pow2(n) <= UintmaxLimit
    ensures n < UintmaxBits ==> Pow2(n) < UintmaxLimit
  {
    Pow2Uintmax();
    Pow2Monotone(n, UintmaxBits);
    if n < UintmaxBits {
      Pow2Monotone(n, UintmaxBits - 1);
      assert Pow2(UintmaxBits) == 2 * Pow2(UintmaxBits - 1);
    }
  }

  /** The magnitude of a converted number fits the bit width, one more for negative numbers. */
  lemma AcceptedMagnitude(num: JsonNumber, isSigned: bool, bitwidth: nat)
    requires 1 <= bitwidth <= UintmaxBits
    requires IntegerValue(num, isSigned, bitwidth).Some?
    ensures num.negative ==> isSigned
    ensures num.digits < Pow2(bitwidth - SignBit(isSigned)) + (if num.negative then 1 else 0)
  {
    IntegerAccepted(num, isSigned, bitwidth);
  }

  /** The store width covers the bit width. */
  lemma WidthCovers(bitwidth: nat)
    requires bitwidth >= 1
    ensures bitwidth <= 8 * IntegerBytes(bitwidth)
  {
  }

  /**
   * The stored bytes read back, unsigned, as the magnitude, plus
   * 2^(bitwidth-1) for a negative number whose magnitude is below it.
   */
  lemma IntegerStored(num: JsonNumber, isSigned: bool, bitwidth: nat, bytes: seq<Byte>)
    requires 1 <= bitwidth <= UintmaxBits
    requires IntegerValue(num, isSigned, bitwidth) == Some(bytes)
    ensures FromLittleEndian(bytes)
            == if num.negative && num.digits < Pow2(bitwidth - 1) then num.digits + Pow2(bitwidth - 1) else num.digits
  {
    IntegerAccepted(num, isSigned, bitwidth);
    var width := IntegerBytes(bitwidth);
    var stored := if isSigned && num.negative then OrBit(num.digits, bitwidth - 1) else num.digits;
    assert bytes == LittleEndian(stored % Pow2(8 * width), width);
    assert Pow2(bitwidth) == 2 * Pow2(bitwidth - 1);
    if num.negative {
      OrBitTop(num.digits, bitwidth - 1);
    }
    WidthCovers(bitwidth);
    Pow2Monotone(bitwidth, 8 * width);
    ModBelow(stored, Pow2(8 * width));
    LittleEndianValue(stored, width);
  }

  lemma ModBelow(v: nat, m: nat)
    requires v < m
    ensures v % m == v
  {
    ModUnique(v, m, 0, v);
  }

  /** `x | (1 << k)` for an `x` of at most `1 << k`. */
  lemma OrBitTop(x: nat, k: nat)
    requires x <= Pow2(k)
    ensures OrBit(x, k) == if x < Pow2(k) then x + Pow2(k) else x
  {
    if x < Pow2(k) {
      ModUnique(x, Pow2(k), 0, x);
    } else {
      ModUnique(x, Pow2(k), 1, 0);
    }
  }

  /* The conversion as evidently intended */

  /** The value of little-endian bytes read as a two's-complement signed integer. */
  function SignedValue(bs: seq<Byte>): int {
    var u := FromLittleEndian(bs);
    if bs != [] && u >= Pow2(8 * |bs| - 1) then u - Pow2(8 * |bs|) else u
  }

  /**
   * json_expect_integer with negative numbers stored in two's complement:
   * the same numbers are accepted, and a negative one is stored as
   * 2^(8 * width) minus its magnitude.
   */
  function IntegerValueIntended(num: JsonNumber, isSigned: bool, bitwidth: nat): (r: Option<seq<Byte>>)
    requires 1 <= bitwidth <= UintmaxBits
    ensures r.Some? <==> IntegerValue(num, isSigned, bitwidth).Some?
    ensures r.Some? ==> |r.value| == IntegerBytes(bitwidth)
  {
    var width := IntegerBytes(bitwidth);
    match IntegerValue(num, isSigned, bitwidth)
    case None => None
    case Some(_) =>
      var full := Pow2(8 * width);
      Some(LittleEndian(if num.negative then (full - num.digits) % full else num.digits, width))
  }

  /** The intended conversion stores the number itself: signed for signed targets, unsigned otherwise. */
  lemma IntendedValue(num: JsonNumber, isSigned: bool, bitwidth: nat, bytes: seq<Byte>)
    requires 1 <= bitwidth <= UintmaxBits
    requires IntegerValueIntended(num, isSigned, bitwidth) == Some(bytes)
    ensures isSigned ==> SignedValue(bytes) == if num.negative then -(num.digits as int) else num.digits
    ensures !isSigned ==> FromLittleEndian(bytes) == num.digits
  {
    AcceptedMagnitude(num, isSigned, bitwidth);
    IntendedBytes(num, isSigned, bitwidth, bytes);
    WidthCovers(bitwidth);
    StoredMagnitude(bytes, num.digits, num.negative, isSigned, bitwidth);
  }

  /** The arithmetic of IntendedValue, apart from the conversion that supplies its facts. */
  lemma StoredMagnitude(bytes: seq<Byte>, d: nat, negative: bool, isSigned: bool, bitwidth: nat)
    requires 1 <= bitwidth <= 8 * |bytes| && (negative ==> isSigned)
    requires var full := Pow2(8 * |bytes|);
             FromLittleEndian(bytes) == (if negative then (full - d) % full else d) % full
    requires d < Pow2(bitwidth - SignBit(isSigned)) + (if negative then 1 else 0)
    ensures isSigned ==> SignedValue(bytes) == if negative then -(d as int) else d
    ensures !isSigned ==> FromLittleEndian(bytes) == d
  {
    if isSigned {
      assert bitwidth - SignBit(isSigned) == bitwidth - 1;
      NarrowTwosComplement(bytes, d, negative, bitwidth);
    } else {
      assert !negative;
      NarrowUnsigned(bytes, d, bitwidth);
    }
  }

  /** Bytes holding a magnitude below 2^bitwidth read back, unsigned, as that magnitude. */
  lemma NarrowUnsigned(bytes: seq<Byte>, d: nat, bitwidth: nat)
    requires bitwidth <= 8 * |bytes|
    requires FromLittleEndian(bytes) == d % Pow2(8 * |bytes|)
    requires d < Pow2(bitwidth)
    ensures FromLittleEndian(bytes) == d
  {
    Pow2Monotone(bitwidth, 8 * |bytes|);
    ModBelow(d, Pow2(8 * |bytes|));
  }

  /** TwosComplementValue for a magnitude bounded by a bit width the bytes cover. */
  lemma NarrowTwosComplement(bytes: seq<Byte>, d: nat, negative: bool, bitwidth: nat)
    requires 1 <= bitwidth <= 8 * |bytes|
    requires var full := Pow2(8 * |bytes|);
             FromLittleEndian(bytes) == (if negative then (full - d) % full else d) % full
    requires d < Pow2(bitwidth - 1) + (if negative then 1 else 0)
    ensures SignedValue(bytes) == if negative then -(d as int) else d
  {
    Pow2Monotone(bitwidth - 1, 8 * |bytes| - 1);
    TwosComplementValue(bytes, d, negative);
  }

  /** Bytes holding -d or d modulo 2^(8n), read back in two's complement. */
  lemma TwosComplementValue(bytes: seq<Byte>, d: nat, negative: bool)
    requires bytes != []
    requires var full := Pow2(8 * |bytes|);
             FromLittleEndian(bytes) == (if negative then (full - d) % full else d) % full
    requires d < Pow2(8 * |bytes| - 1) + (if negative then 1 else 0)
    ensures SignedValue(bytes) == if negative then -(d as int) else d
  {
    var full := Pow2(8 * |bytes|);
    var half := Pow2(8 * |bytes| - 1);
    assert full == 2 * half;
    var stored := if negative then (full - d) % full else d;
    if negative {
      NegatedModulo(full, half, d);
    }
    ModBelow(stored, full);
  }

  /** -d modulo 2^n, for a magnitude d of at most 2^(n-1). */
  lemma NegatedModulo(full: nat, half: nat, d: nat)
    requires full == 2 * half && half >= 1 && d <= half
    ensures d == 0 ==> (full - d) % full == 0
    ensures d > 0 ==> (full - d) % full == full - d >= half
  {
    if d == 0 {
      ModUnique(full, full, 1, 0);
    } else {
      ModBelow(full - d, full);
    }
  }

  lemma IntendedBytes(num: JsonNumber, isSigned: bool, bitwidth: nat, bytes: seq<Byte>)
    requires 1 <= bitwidth <= UintmaxBits
    requires IntegerValueIntended(num, isSigned, bitwidth) == Some(bytes)
    ensures |bytes| == IntegerBytes(bitwidth)
    ensures var full := Pow2(8 * |bytes|);
            FromLittleEndian(bytes) == (if num.negative then (full - num.digits) % full else num.digits) % full
  {
    var width := IntegerBytes(bitwidth);
    var full := Pow2(8 * width);
    LittleEndianValue(if num.negative then (full - num.digits) % full else num.digits, width);
  }

  /** For numbers that are not negative, both conversions store the same bytes. */
  lemma NonNegativeAgree(num: JsonNumber, isSigned: bool, bitwidth: nat)
    requires 1 <= bitwidth <= UintmaxBits && !num.negative
    ensures IntegerValueIntended(num, isSigned, bitwidth) == IntegerValue(num, isSigned, bitwidth)
  {
    IntegerAccepted(num, isSigned, bitwidth);
    if IntegerValue(num, isSigned, bitwidth).Some? {
      var width := IntegerBytes(bitwidth);
      WidthCovers(bitwidth);
      Pow2Monotone(bitwidth - SignBit(isSigned), 8 * width);
      ModBelow(num.digits, Pow2(8 * width));
    }
  }

  /** "-1" read as an int8_t is stored as 0x81 (-127), where 0xFF (-1) is intended. */
  lemma MinusOneAsInt8()
    ensures IntegerValue(JsonNumber(1, 0, 0, true), true, CharBits) == Some([0x81])
    ensures IntegerValueIntended(JsonNumber(1, 0, 0, true), true, CharBits) == Some([0xFF])
  {
    var num := JsonNumber(1, 0, 0, true);
    assert Pow2(7) == 128 && Pow2(8) == 256;
    IntegerAccepted(num, true, CharBits);
    var bytes := IntegerValue(num, true, CharBits).value;
    IntegerStored(num, true, CharBits, bytes);
    LittleEndianOfValue(bytes);
    assert bytes == LittleEndian(0x81, 1);
    assert LittleEndian(0x81, 1) == [0x81] + LittleEndian(0x81 / 256, 0);
    assert bytes == [0x81];
    var intended := IntegerValueIntended(num, true, CharBits).value;
    IntendedValue(num, true, CharBits, intended);
    LittleEndianOfValue(intended);
    assert intended == LittleEndian(0xFF, 1);
    assert LittleEndian(0xFF, 1) == [0xFF] + LittleEndian(0xFF / 256, 0);
    assert intended == [0xFF];
  }

  /** "-0" read as an int8_t is stored as 0x80, which is -128. */
  lemma MinusZeroAsInt8()
    ensures IntegerValue(JsonNumber(0, 0, 0, true), true, CharBits) == Some([0x80])
  {
    var num := JsonNumber(0, 0, 0, true);
    assert Pow2(7) == 128;
    IntegerAccepted(num, true, CharBits);
    var bytes := IntegerValue(num, true, CharBits).value;
    IntegerStored(num, true, CharBits, bytes);
    LittleEndianOfValue(bytes);
    assert bytes == LittleEndian(0x80, 1);
    assert LittleEndian(0x80, 1) == [0x80] + LittleEndian(0x80 / 256, 0);
    assert bytes == [0x80];
  }

  /** 255 fits a uint8_t, 256 does not, and an unsigned target refuses "-1". */
  lemma UnsignedByteRange()
    ensures IntegerValue(JsonNumber(255, 0, 0, false), false, CharBits) == Some([0xFF])
    ensures IntegerValue(JsonNumber(256, 0, 0, false), false, CharBits).None?
    ensures IntegerValue(JsonNumber(1, 0, 0, true), false, CharBits).None?
  {
    var num := JsonNumber(255, 0, 0, false);
    assert Pow2(8) == 256;
    IntegerAccepted(num, false, CharBits);
    IntegerAccepted(JsonNumber(256, 0, 0, false), false, CharBits);
    IntegerAccepted(JsonNumber(1, 0, 0, true), false, CharBits);
    var bytes := IntegerValue(num, false, CharBits).value;
    IntegerStored(num, false, CharBits, bytes);
    LittleEndianOfValue(bytes);
    assert bytes == LittleEndian(0xFF, 1);
    assert LittleEndian(0xFF, 1) == [0xFF] + LittleEndian(0xFF / 256, 0);
    assert bytes == [0xFF];
  }

  /** A 24-bit target needs a 3-byte store, which json_expect_integer does not support. */
  lemma ThreeByteStoreRefused(num: JsonNumber, isSigned: bool)
    ensures IntegerValue(num, isSigned, 24).None?
  {
    IntegerAccepted(num, isSigned, 24);
  }

  /** Any value below 256 is stored into a uint8_t as that one byte. */
  lemma UnsignedByteStored(v: Byte)
    ensures IntegerValue(JsonNumber(v, 0, 0, false), false, CharBits) == Some([v])
  {
    assert Pow2(8) == 256;
    MaxValIs(false, CharBits);
    assert IntegerBytes(CharBits) == 1;
    ModBelow(255, UintmaxLimit);
    ModBelow(v, 256);
    assert LittleEndian(v, 1) == [v % 256] + LittleEndian(v / 256, 0);
    var num := JsonNumber(v, 0, 0, false);
    assert num.digits <= (MaxVal(false, CharBits) + 0) % UintmaxLimit;
    assert IntegerValue(num, false, CharBits) == Some(LittleEndian(v % Pow2(8 * 1), 1));
    assert v % Pow2(8 * 1) == v;
    assert LittleEndian(v / 256, 0) == [];
    assert LittleEndian(v, 1) == [v];
    assert IntegerValue(num, false, CharBits) == Some([v]);
  }
}
