/**
 * Reference semantics of the value readers of components/immjson/immjson.c
 * (strings, booleans, null, numbers, integers) and of the structural
 * helpers built on them (objects, keys, arrays), together with the inline
 * wrappers of the header.
 */
module JsonValues {
  import opened Wrappers
  import opened JsonTypes
  import opened JsonLexer

  datatype StringStep = StringStep(ok: bool, str: seq<char>, src: Source)
  datatype BoolStep = BoolStep(ok: bool, value: bool, src: Source)
  datatype NumberStep = NumberStep(ok: bool, num: JsonNumber, src: Source)
  /** json_expect_integer's outcome: the bytes it stores, least significant first. */
  datatype IntegerStep = IntegerStep(ok: bool, bytes: seq<Byte>, src: Source)
  /** json_next_key's outcome: the key, or None for NULL. */
  datatype KeyStep = KeyStep(key: Option<seq<char>>, src: Source)

  /* Strings */

  /** The byte json_expect_string stores for the escape sequence `\c`. */
  function Unescape(c: char): Option<char> {
    match c
    case '"' => Some('"')
    case '\\' => Some('\\')
    case '/' => Some('/')
    case 'b' => Some('\U{8}')
    case 'f' => Some('\U{C}')
    case 'n' => Some('\n')
    case 'r' => Some('\r')
    case 't' => Some('\t')
    case _ => None
  }

  /**
   * json_expect_string: expects '"' after whitespace, then collects the
   * string into the emptied buffer chunk by chunk, replacing each escape
   * sequence by its byte.  On success the string is handed out and the
   * buffer released (the build does not define JSON_REUSE_STRING_BUFFER).
   */
  function ExpectString(s: Source): (r: StringStep)
    ensures Advances(s, r.src) && r.src.line >= s.line
    ensures r.ok ==> After(s, r.src)
    ensures r.ok ==> r.src.buffer == ReleasedBuffer(s.buffer.heapLimit)
  {
    var t := TrimLeftExpectChar(s, '"');
    if !t.ok then StringStep(false, [], t.src)
    else StringContents(t.src.(buffer := t.src.buffer.(content := [])))
  }

  /** What one pass of json_expect_string's loop leaves: a result, or the source for the next pass. */
  datatype StringProgress = Finished(step: StringStep) | Pending(src: Source)

  /** The loop of json_expect_string, after the opening quote. */
  function StringContents(s: Source): (r: StringStep)
    ensures Advances(s, r.src) && r.src.line == s.line
    ensures r.ok ==> After(s, r.src)
    ensures r.ok ==> r.src.buffer == ReleasedBuffer(s.buffer.heapLimit)
    decreases Unread(s), |s.remainder|
  {
    var c := ReadStringChunk(s);
    if !c.ok then StringStep(false, [], c.src)
    else match AfterChunk(c.src)
      case Finished(step) => step
      case Pending(t) => StringContents(t)
  }

  /**
   * The body of json_expect_string's loop after a successful
   * json_read_string_chunk, whose delimiter is the last buffered byte: a
   * quote ends the string, which is handed out and the buffer released; a
   * backslash and the byte after it are replaced by the byte the escape
   * sequence stands for, any other escape (\u included) being a failure.
   */
  function AfterChunk(s: Source): (r: StringProgress)
    requires |s.buffer.content| > 0
    ensures r.Finished? ==> Advances(s, r.step.src) && r.step.src.line == s.line
    ensures r.Finished? && r.step.ok ==> r.step.src.buffer == ReleasedBuffer(s.buffer.heapLimit)
    ensures r.Pending? ==> Advances(s, r.src) && After(s, r.src) && r.src.line == s.line
  {
    var content := s.buffer.content;
    var len := |content|;
    if content[len - 1] == '"' then
      Finished(StringStep(true, content[..len - 1], s.(buffer := ReleasedBuffer(s.buffer.heapLimit))))
    else
      var e := ReadExpectChar(s, ReadAny);
      if !e.ok then Finished(StringStep(false, [], e.src))
      else match Unescape(e.got)
        case None => Finished(StringStep(false, [], e.src))
        case Some(u) => Pending(e.src.(buffer := e.src.buffer.(content := content[..len - 1] + [u])))
  }

  /* Literals */

  /**
   * json_expect_bool: trims whitespace, then tries the literal "true" and,
   * if that fails, the literal "false".
   */
  function ExpectBool(s: Source): (r: BoolStep)
    ensures Advances(s, r.src) && r.src.buffer == s.buffer
    ensures r.ok ==> After(s, r.src)
  {
    var t := TrimLeftExpectChar(s, ' ').src;
    var yes := ReadExpected(t, "true");
    if yes.ok then BoolStep(true, true, yes.src)
    else
      var no := ReadExpected(yes.src, "false");
      BoolStep(no.ok, false, no.src)
  }

  /** json_expect_null */
  function ExpectNull(s: Source): (r: Step)
    ensures Advances(s, r.src) && r.src.buffer == s.buffer
    ensures r.ok ==> After(s, r.src)
  {
    ReadExpected(TrimLeftExpectChar(s, ' ').src, "null")
  }

  /* Numbers */

  /** The exponent part of json_expect_number: (accepted, exponent, state). */
  datatype ExponentStep = ExponentStep(ok: bool, exponent: int, src: Source)

  /**
   * json_expect_number: optional '-' after whitespace; a single '0' or a
   * digit sequence; optionally '.' and a digit sequence, accumulated into
   * the same digits; then the exponent part.
   */
  function ExpectNumber(s: Source): (r: NumberStep)
    ensures Advances(s, r.src) && r.src.buffer == s.buffer
    ensures r.ok ==> NumberInRange(r.num)
  {
    var minus := TrimLeftExpectChar(s, '-');
    var whole := WholePart(minus.src);
    if whole.count == 0 then NumberStep(false, ZeroNumber, whole.src)
    else NumberTail(whole.src, whole.value, minus.ok)
  }

  /**
   * The integer part of json_expect_number: a '0' alone (leading zeros
   * are not allowed, so nothing else is read) or a digit sequence; a zero
   * count is a failure.
   */
  function WholePart(s: Source): (r: DigitStep)
    ensures Advances(s, r.src) && r.src.buffer == s.buffer
    ensures r.value < UintmaxLimit && r.count < DigitCountLimit
  {
    var zero := ReadExpectChar(s, '0');
    if zero.ok then DigitStep(1, 0, zero.src) else ReadDigitSeq(zero.src, 0, 0)
  }

  /** json_expect_number after the integer part, whose value is `digits`. */
  function NumberTail(s: Source, digits: nat, negative: bool): (r: NumberStep)
    requires digits < UintmaxLimit
    ensures Advances(s, r.src) && r.src.buffer == s.buffer
    ensures r.ok ==> NumberInRange(r.num)
  {
    var frac := FractionPart(s, digits);
    if !frac.0 then NumberStep(false, ZeroNumber, frac.1.src)
    else
      var e := ExponentPart(frac.1.src);
      if !e.ok then NumberStep(false, ZeroNumber, e.src)
      else NumberStep(true, JsonNumber(frac.1.value, e.exponent, frac.1.count, negative), e.src)
  }

  /**
   * The fraction part of json_expect_number: nothing unless the next byte
   * is '.', otherwise a non-empty digit sequence appended to `digits`;
   * its digit count becomes point_pos.
   */
  function FractionPart(s: Source, digits: nat): (r: (bool, DigitStep))
    requires digits < UintmaxLimit
    ensures Advances(s, r.1.src) && r.1.src.buffer == s.buffer
    ensures r.1.value < UintmaxLimit && r.1.count < DigitCountLimit
  {
    var dot := ReadExpectChar(s, '.');
    if !dot.ok then (true, DigitStep(0, digits, dot.src))
    else
      var frac := ReadDigitSeq(dot.src, digits, 0);
      (frac.count != 0, frac)
  }

  /**
   * The exponent part of json_expect_number: nothing (exponent 0) unless
   * the next byte is 'e' or 'E'.
   */
  function ExponentPart(s: Source): (r: ExponentStep)
    ensures Advances(s, r.src) && r.src.buffer == s.buffer
    ensures r.ok ==> -(ExponentMax as int) <= r.exponent <= ExponentMax
  {
    var e := ReadExpectChar(s, 'e');
    var e := if e.ok then e else ReadExpectChar(e.src, 'E');
    if !e.ok then ExponentStep(true, 0, e.src) else SignedExponent(e.src)
  }

  /**
   * The exponent after 'e' or 'E': an optional '-' or '+' and a non-empty
   * digit sequence of value at most INT16_MAX, negated after '-'.
   */
  function SignedExponent(s: Source): (r: ExponentStep)
    ensures Advances(s, r.src) && r.src.buffer == s.buffer
    ensures r.ok ==> -(ExponentMax as int) <= r.exponent <= ExponentMax
  {
    var expMinus := ReadExpectChar(s, '-');
    var signed := if expMinus.ok then expMinus.src else ReadExpectChar(expMinus.src, '+').src;
    var exp := ReadDigitSeq(signed, 0, 0);
    if exp.count == 0 || exp.value > ExponentMax then ExponentStep(false, 0, exp.src)
    else ExponentStep(true, if expMinus.ok then -(exp.value as int) else exp.value, exp.src)
  }

  /* Integers */

  function Pow2(n: nat): (r: nat)
    ensures r >= 1
  {
    if n == 0 then 1 else 2 * Pow2(n - 1)
  }

  /** `x | (1 << k)` */
  function OrBit(x: nat, k: nat): nat {
    if (x / Pow2(k)) % 2 == 1 then x else x + Pow2(k)
  }

  /** The `n` bytes of `v` in memory order of the little-endian target. */
  function LittleEndian(v: nat, n: nat): (r: seq<Byte>)
    ensures |r| == n
  {
    if n == 0 then [] else [v % 256] + LittleEndian(v / 256, n - 1)
  }

  /** The unsigned value stored in little-endian bytes. */
  function FromLittleEndian(bs: seq<Byte>): nat {
    if bs == [] then 0 else bs[0] + 256 * FromLittleEndian(bs[1..])
  }

  /** The store width json_expect_integer switches on: (bitwidth - 1)/8 + 1 bytes. */
  function IntegerBytes(bitwidth: nat): nat
    requires bitwidth >= 1
  {
    (bitwidth - 1) / 8 + 1
  }

  /** max_val = ~(JsonUintmax)0 >> (JSON_UINTMAX_WIDTH - bitwidth + is_signed) */
  function MaxVal(isSigned: bool, bitwidth: nat): nat
    requires 1 <= bitwidth <= UintmaxBits
  {
    (UintmaxLimit - 1) / Pow2(UintmaxBits - bitwidth + (if isSigned then 1 else 0))
  }

  /**
   * json_expect_integer: reads a number and converts it with
   * IntegerValue; a number that cannot be read or converted is a failure.
   */
  function ExpectInteger(s: Source, isSigned: bool, bitwidth: nat): (r: IntegerStep)
    requires 1 <= bitwidth <= UintmaxBits
    ensures Advances(s, r.src) && r.src.buffer == s.buffer
    ensures r.ok ==> |r.bytes| == IntegerBytes(bitwidth)
  {
    var n := ExpectNumber(s);
    if !n.ok then IntegerStep(false, [], n.src)
    else match IntegerValue(n.num, isSigned, bitwidth)
      case None => IntegerStep(false, [], n.src)
      case Some(bytes) => IntegerStep(true, bytes, n.src)
  }

  /**
   * The conversion of json_expect_integer: rejects fractions, exponents,
   * magnitudes above max_val (one more for negative numbers) and negative
   * numbers for unsigned targets, sets bit bitwidth-1 for negative signed
   * numbers, and gives the value truncated to 1, 2, 4 or 8 bytes; other
   * store widths are unsupported.
   */
  function IntegerValue(num: JsonNumber, isSigned: bool, bitwidth: nat): (r: Option<seq<Byte>>)
    requires 1 <= bitwidth <= UintmaxBits
    ensures r.Some? ==> |r.value| == IntegerBytes(bitwidth)
  {
    var width := IntegerBytes(bitwidth);
    if num.pointPos != 0 || num.exponent != 0 then None
    else if num.digits > (MaxVal(isSigned, bitwidth) + (if num.negative then 1 else 0)) % UintmaxLimit then None
    else if !isSigned && num.negative then None
    else
      var stored := if isSigned && num.negative then OrBit(num.digits, bitwidth - 1) else num.digits;
      if width == 1 || width == 2 || width == 4 || width == 8 then
        Some(LittleEndian(stored % Pow2(8 * width), width))
      else None
  }

  /** json_expect_char: a signed 8-bit integer. */
  function ExpectChar(s: Source): (r: IntegerStep)
    ensures r.ok ==> |r.bytes| == 1
  {
    ExpectInteger(s, true, CharBits)
  }

  /** json_expect_uchar: an unsigned 8-bit integer. */
  function ExpectUChar(s: Source): (r: IntegerStep)
    ensures r.ok ==> |r.bytes| == 1
  {
    ExpectInteger(s, false, CharBits)
  }

  /** json_expect_short: a signed 16-bit integer. */
  function ExpectShort(s: Source): (r: IntegerStep)
    ensures r.ok ==> |r.bytes| == 2
  {
    ExpectInteger(s, true, ShortBits)
  }

  /** json_expect_ushort: an unsigned 16-bit integer. */
  function ExpectUShort(s: Source): (r: IntegerStep)
    ensures r.ok ==> |r.bytes| == 2
  {
    ExpectInteger(s, false, ShortBits)
  }

  /** json_expect_int: a signed 32-bit integer. */
  function ExpectInt(s: Source): (r: IntegerStep)
    ensures r.ok ==> |r.bytes| == 4
  {
    ExpectInteger(s, true, IntBits)
  }

  /** json_expect_uint: an unsigned 32-bit integer. */
  function ExpectUInt(s: Source): (r: IntegerStep)
    ensures r.ok ==> |r.bytes| == 4
  {
    ExpectInteger(s, false, IntBits)
  }

  /** json_expect_long: a signed 32-bit integer (long is 32 bits wide on the target). */
  function ExpectLong(s: Source): (r: IntegerStep)
    ensures r.ok ==> |r.bytes| == 4
  {
    ExpectInteger(s, true, LongBits)
  }

  /** json_expect_ulong: an unsigned 32-bit integer. */
  function ExpectULong(s: Source): (r: IntegerStep)
    ensures r.ok ==> |r.bytes| == 4
  {
    ExpectInteger(s, false, LongBits)
  }

  /* Structure */

  /** json_begin_object */
  function BeginObject(s: Source): (r: Step)
    ensures Advances(s, r.src) && r.src.buffer == s.buffer
  {
    TrimLeftExpectChar(s, '{')
  }

  /** json_end_object */
  function EndObject(s: Source): (r: Step)
    ensures Advances(s, r.src) && r.src.buffer == s.buffer
  {
    TrimLeftExpectChar(s, '}')
  }

  /**
   * json_next_key: an optional ',' then a string and a ':'.  The comma is
   * optional, so keys need not be separated.
   */
  function NextKey(s: Source): (r: KeyStep)
    ensures Advances(s, r.src)
    ensures r.key.Some? ==> After(s, r.src)
  {
    var comma := TrimLeftExpectChar(s, ',');
    var k := ExpectString(comma.src);
    if !k.ok then KeyStep(None, k.src)
    else
      var colon := TrimLeftExpectChar(k.src, ':');
      KeyStep(if colon.ok then Some(k.str) else None, colon.src)
  }

  /** json_expect_key: the next key is exactly `expected`. */
  function ExpectKey(s: Source, expected: seq<char>): (r: Step)
    ensures Advances(s, r.src)
    ensures r.ok ==> After(s, r.src)
    ensures r.ok <==> NextKey(s).key == Some(expected)
    ensures r.src == NextKey(s).src
  {
    var k := NextKey(s);
    Step(k.key == Some(expected), k.src)
  }

  /** json_begin_array: '[' that is not directly followed by ']'. */
  function BeginArray(s: Source): (r: Step)
    ensures Advances(s, r.src) && r.src.buffer == s.buffer
  {
    var open := TrimLeftExpectChar(s, '[');
    if !open.ok then open
    else
      var close := TrimLeftExpectChar(open.src, ']');
      Step(!close.ok, close.src)
  }

  /**
   * json_array_next: true after a ','; false otherwise, having consumed
   * the ']' if that is the next significant byte.
   */
  function ArrayNext(s: Source): (r: Step)
    ensures Advances(s, r.src) && r.src.buffer == s.buffer
  {
    var comma := TrimLeftExpectChar(s, ',');
    if comma.ok then comma
    else if comma.src.remainder != [] && comma.src.remainder[0] == ']' then
      Step(false, comma.src.(remainder := comma.src.remainder[1..]))
    else comma
  }

  /**
   * The json_expect_object macro: runs `body` only if json_begin_object
   * succeeds, then calls json_end_object once, ignoring its result.
   */
  function ExpectObject(s: Source, body: Source -> Source): (r: Step)
    ensures r.ok == BeginObject(s).ok
    ensures !r.ok ==> r.src == BeginObject(s).src
  {
    var begin := BeginObject(s);
    if !begin.ok then begin
    else Step(true, EndObject(body(begin.src)).src)
  }
}
